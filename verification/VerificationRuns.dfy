/** Whole runs over the findings table. A pass reads the rows it will decide, gives up control
    while a scan runs or a statement is in flight, and then writes its decisions back from the
    rows as it read them. Uploads, re-checks, analysts' edits and new findings interleave in any
    order and number; only one read, one commit and one edit are each taken at once.
 */
module VerificationRuns {
  import opened Wrappers
  import opened Sorting
  import opened VerificationContract
  import opened Verification
  import opened RecheckJob

  type Table = map<nat, Row>

  const MAX_FINDINGS_PER_RECHECK: nat := 200

  /** A pass under way: the ids it has still to read, those it will decide, the rows as it read
      them, and the report an upload brings with it. */
  datatype Job = Job(pending: seq<nat>, kept: seq<nat>, copies: Table,
                     report: Option<VerificationReport>, source: string)

  datatype System = System(table: Table, jobs: map<nat, Job>)

  datatype Event =
    /** An upload's pass reads the open findings on its hosts, in one statement. */
    | Select(job: nat, scan: NormalizedScan, batch: seq<RawId>, source: string, at: int)
    /** A re-check of the named findings starts; it reads them one by one. */
    | Request(job: nat, ids: seq<nat>, source: string)
    | Fetch(job: nat)
    /** The pass decides what it read and commits; a re-check has the engine's report by then,
        unless the call failed. */
    | Apply(job: nat, engine: Option<VerificationReport>, at: int)
    | Edit(id: nat, status: Status)
    | Arrive(id: nat, row: Row)

  // ----- reading -----

  /** Stored open findings on the scan's hosts, except those this very scan just created. */
  predicate UploadSelects(row: Row, scan: NormalizedScan, source: string) {
    && (exists i :: 0 <= i < |scan.hosts| && row.asset == Some(scan.hosts[i].address))
    && IsOpen(row.status) && row.rawId != Missing
    && (CandidateIdOf(row.rawId).None? || row.rawReference != Some(source))
  }

  predicate RecheckKeeps(row: Row) {
    IsOpen(row.status) && CandidateIdOf(row.rawId).Some?
  }

  predicate NatLe(a: nat, b: nat) { a <= b }

  function SortedIds(ids: set<nat>): (r: seq<nat>)
    ensures forall id :: id in r <==> id in ids
    ensures forall i, j :: 0 <= i < j < |r| ==> r[i] != r[j]
  {
    assert TotalOrder(NatLe);
    Ascending(ids, NatLe)
  }

  function SelectJob(table: Table, scan: NormalizedScan, batch: seq<RawId>, source: string, at: int): Job {
    var ids := set id | id in table && UploadSelects(table[id], scan, source);
    Job([], SortedIds(ids), map id | id in ids :: table[id], Some(ScanReport(scan, batch, at)), source)
  }

  function Requested(ids: seq<nat>): seq<nat> {
    if |ids| <= MAX_FINDINGS_PER_RECHECK then ids else ids[..MAX_FINDINGS_PER_RECHECK]
  }

  /** Read the next finding. One already held is the same object again, not a new read. */
  function FetchNext(table: Table, j: Job): Job
    requires j.pending != []
  {
    var id, rest := j.pending[0], j.(pending := j.pending[1..]);
    if id in j.copies then rest.(kept := j.kept + [id])
    else if id in table && RecheckKeeps(table[id])
    then rest.(kept := j.kept + [id], copies := j.copies[id := table[id]])
    else rest
  }

  // ----- deciding and writing back -----

  function Occurrences(ids: seq<nat>, id: nat): nat {
    if ids == [] then 0
    else Occurrences(ids[..|ids| - 1], id) + (if ids[|ids| - 1] == id then 1 else 0)
  }

  function RowsOf(copies: Table, ids: seq<nat>): seq<Row> {
    if ids == [] then [] else
      var last := ids[|ids| - 1];
      RowsOf(copies, ids[..|ids| - 1]) + (if last in copies then [copies[last]] else [])
  }

  function TargetsOfJob(j: Job): seq<VerificationTarget> {
    TargetsOf(RowsOf(j.copies, j.kept))
  }

  /** The report a pass decides against: none when there is nothing to decide or the engine
      failed, an empty one when no finding of a re-check gives a target. */
  function JobReport(j: Job, engine: Option<VerificationReport>, at: int): Option<VerificationReport> {
    if j.pending != [] || j.kept == [] then None
    else if j.report.Some? then j.report
    else if TargetsOfJob(j) == [] then Some(VerificationReport(at, [], []))
    else engine
  }

  /** How often the event decides the finding. */
  function Hits(s: System, e: Event, id: nat): nat {
    if e.Apply? && e.job in s.jobs && id in s.table && id in s.jobs[e.job].copies
       && JobReport(s.jobs[e.job], e.engine, e.at).Some?
    then Occurrences(s.jobs[e.job].kept, id) else 0
  }

  /** The commit writes what the pass changed on the row it read: the evidence, whole, and the
      status only if the pass set it. */
  function WriteBack(current: Row, copy: Row, report: VerificationReport, source: string, n: nat): Row {
    if n == 0 then current else
      var after := AppliedTimes(copy, report, source, n);
      current.(rawId := after.rawId, history := after.history,
               status := if after.status == copy.status then current.status else after.status)
  }

  function AfterApply(s: System, e: Event, id: nat): Row
    requires e.Apply? && id in s.table
  {
    if Hits(s, e, id) == 0 then s.table[id] else
      var j := s.jobs[e.job];
      WriteBack(s.table[id], j.copies[id], JobReport(j, e.engine, e.at).value, j.source, Hits(s, e, id))
  }

  function Step(s: System, e: Event): System {
    match e
    case Select(job, scan, batch, source, at) =>
      if job in s.jobs || scan.hosts == [] then s
      else s.(jobs := s.jobs[job := SelectJob(s.table, scan, batch, source, at)])
    case Request(job, ids, source) =>
      if job in s.jobs then s else s.(jobs := s.jobs[job := Job(Requested(ids), [], map[], None, source)])
    case Fetch(job) =>
      if job in s.jobs && s.jobs[job].pending != []
      then s.(jobs := s.jobs[job := FetchNext(s.table, s.jobs[job])]) else s
    case Apply(job, _, _) =>
      if job in s.jobs && s.jobs[job].pending == []
      then System(map id | id in s.table :: AfterApply(s, e, id), s.jobs - {job}) else s
    case Edit(id, status) =>
      if id in s.table then s.(table := s.table[id := s.table[id].(status := status)]) else s
    case Arrive(id, row) => if id in s.table then s else s.(table := s.table[id := row])
  }

  /** A run from a table with no pass under way. */
  function Run(table: Table, events: seq<Event>): System {
    if events == [] then System(table, map[])
    else Step(Run(table, events[..|events| - 1]), events[|events| - 1])
  }

  // ----- what a write-back does, exactly -----

  function Entries(o: Outcome, report: VerificationReport, source: string, n: nat): seq<Entry> {
    if n == 0 then [] else
      Entries(o, report, source, n - 1)
        + [Entry(if n > 1 && o == Fixed then Unverifiable else o, report.scannedAt, source)]
  }

  lemma {:induction false} EntriesOf(row: Row, report: VerificationReport, source: string, n: nat)
    ensures var after := AppliedTimes(row, report, source, n);
      && Untouched(row, after)
      && after.status == (if n > 0 && Decide(row, report) == Fixed then Resolved else row.status)
      && after.history == row.history + Entries(Decide(row, report), report, source, n)
    ensures |Entries(Decide(row, report), report, source, n)| == n
  {
    if n > 0 {
      EntriesOf(row, report, source, n - 1);
      var before := AppliedTimes(row, report, source, n - 1);
      assert row.history + Entries(Decide(row, report), report, source, n - 1)
           + [Entry(Decide(before, report), report.scannedAt, source)]
          == row.history + Entries(Decide(row, report), report, source, n);
    } else {
      assert row.history + [] == row.history;
    }
  }

  lemma {:induction false} FirstEntry(o: Outcome, report: VerificationReport, source: string, n: nat)
    requires n > 0
    ensures |Entries(o, report, source, n)| == n && Entries(o, report, source, n)[0].outcome == o
  {
    if n > 1 { FirstEntry(o, report, source, n - 1); }
  }

  lemma EqualTails<T>(a: seq<T>, b: seq<T>, x: seq<T>, y: seq<T>)
    requires a + x == b + y && |x| == |y|
    ensures a == b && x == y
  {
    assert (a + x)[..|a|] == a && (b + y)[..|b|] == b;
    assert (a + x)[|a|..] == x && (b + y)[|b|..] == y;
  }

  /** What a commit writes: the facts as they are, the history it read and its own entries, and the
      status resolved exactly when the row it read was proved fixed. */
  lemma WriteBackIs(current: Row, copy: Row, report: VerificationReport, source: string, n: nat)
    requires Untouched(copy, current) && n > 0
    ensures var after := WriteBack(current, copy, report, source, n);
      && Untouched(current, after)
      && after.status == (if ProvenFixed(copy, report) then Resolved else current.status)
      && after.history == copy.history + Entries(Decide(copy, report), report, source, n)
    ensures |Entries(Decide(copy, report), report, source, n)| == n
  {
    EntriesOf(copy, report, source, n);
    ResolvedExactlyWhenProven(copy, report);
    assert ProvenFixed(copy, report) ==> copy.status != Resolved;
  }

  /** A commit is what deciding the stored row would have been if and only if the history has not
      moved since the read and the stored row would be decided the same. */
  lemma WriteBackAgreesExactly(current: Row, copy: Row, report: VerificationReport, source: string, n: nat)
    requires Untouched(copy, current) && n > 0
    ensures WriteBack(current, copy, report, source, n) == AppliedTimes(current, report, source, n)
      <==> copy.history == current.history && Decide(copy, report) == Decide(current, report)
  {
    WriteBackIs(current, copy, report, source, n);
    EntriesOf(current, report, source, n);
    ResolvedExactlyWhenProven(copy, report);
    SameHistoryExactly(copy.history, current.history, Decide(copy, report), Decide(current, report), report, source, n);
  }

  lemma SameHistoryExactly(a: seq<Entry>, b: seq<Entry>, o: Outcome, p: Outcome,
                           report: VerificationReport, source: string, n: nat)
    requires n > 0
    ensures a + Entries(o, report, source, n) == b + Entries(p, report, source, n) <==> a == b && o == p
  {
    FirstEntry(o, report, source, n);
    FirstEntry(p, report, source, n);
    if a + Entries(o, report, source, n) == b + Entries(p, report, source, n) {
      EqualTails(a, b, Entries(o, report, source, n), Entries(p, report, source, n));
    }
  }

  /** It keeps every stored entry and adds one per decision if and only if the history has not
      moved since the read: otherwise an entry is lost. */
  lemma EntriesAreKeptExactly(current: Row, copy: Row, report: VerificationReport, source: string, n: nat)
    requires Untouched(copy, current) && n > 0
    ensures var after := WriteBack(current, copy, report, source, n);
      (current.history <= after.history && |after.history| == |current.history| + n)
      <==> copy.history == current.history
  {
    WriteBackIs(current, copy, report, source, n);
  }

  /** A closed finding is changed exactly when it is a false positive and what the pass read was
      proved fixed: a row that was open when it was read and is not any more. */
  lemma ClosedIsOverwrittenExactly(current: Row, copy: Row, report: VerificationReport, source: string, n: nat)
    requires Untouched(copy, current) && n > 0 && !IsOpen(current.status)
    ensures WriteBack(current, copy, report, source, n).status != current.status
      <==> current.status == FalsePositive && ProvenFixed(copy, report)
  {
    WriteBackIs(current, copy, report, source, n);
  }

  // ----- what every reachable system keeps -----

  ghost predicate Holds(s: System, job: nat, id: nat) {
    job in s.jobs && id in s.jobs[job].copies
  }

  /** Every pass under way holds rows of the table, with the facts they still have. */
  ghost predicate CopiesAgree(s: System) {
    forall job, id :: job in s.jobs && id in s.jobs[job].copies ==>
      id in s.table && Untouched(s.jobs[job].copies[id], s.table[id])
  }

  ghost predicate Edits(e: Event, id: nat) { e.Edit? && e.id == id }

  /** The pass decides the finding, and its report proves the row it read fixed. */
  ghost predicate Proves(s: System, e: Event, id: nat) {
    && Hits(s, e, id) > 0
    && ProvenFixed(s.jobs[e.job].copies[id], JobReport(s.jobs[e.job], e.engine, e.at).value)
  }

  /** What any event does to a stored row's facts and status: nothing to the facts, and to the
      status only an edit of it, or resolved, exactly when a pass proves what it read. */
  lemma StepStatus(s: System, e: Event, id: nat)
    requires CopiesAgree(s) && id in s.table
    ensures var t := Step(s, e);
      && id in t.table && Untouched(s.table[id], t.table[id])
      && t.table[id].status == (if Edits(e, id) then e.status else if Proves(s, e, id) then Resolved
                                else s.table[id].status)
  {
    if Hits(s, e, id) > 0 {
      var j := s.jobs[e.job];
      WriteBackIs(s.table[id], j.copies[id], JobReport(j, e.engine, e.at).value, j.source, Hits(s, e, id));
    }
  }

  lemma CopiesAgreeStep(s: System, e: Event)
    requires CopiesAgree(s)
    ensures CopiesAgree(Step(s, e))
  {
    var t := Step(s, e);
    forall job, id | job in t.jobs && id in t.jobs[job].copies
      ensures id in t.table && Untouched(t.jobs[job].copies[id], t.table[id])
    {
      CopyComesFrom(s, e, job, id);
      StepStatus(s, e, id);
    }
  }

  /** A row a pass holds after an event, it held before, or the event read it from the table. */
  lemma CopyComesFrom(s: System, e: Event, job: nat, id: nat)
    requires CopiesAgree(s)
    ensures Holds(Step(s, e), job, id) ==>
      var now := Step(s, e).jobs[job].copies[id];
      && id in s.table
      && if Holds(s, job, id) then now == s.jobs[job].copies[id]
         else now == s.table[id] && IsOpen(now.status) && Step(s, e).table == s.table
  {
    match e
    case Select(_, _, _, _, _) =>
    case Request(_, _, _) =>
    case Fetch(_) =>
    case Apply(_, _, _) =>
    case Edit(_, _) =>
    case Arrive(_, _) =>
  }

  lemma {:induction false} CopiesAgreeOverRuns(table: Table, events: seq<Event>)
    ensures CopiesAgree(Run(table, events))
  {
    if events != [] {
      CopiesAgreeOverRuns(table, events[..|events| - 1]);
      CopiesAgreeStep(Run(table, events[..|events| - 1]), events[|events| - 1]);
    }
  }

  /** Rows are never lost and their facts never change, however passes overlap. */
  lemma {:induction false} FactsNeverChange(table: Table, events: seq<Event>, id: nat)
    requires id in table
    ensures id in Run(table, events).table
    ensures Untouched(table[id], Run(table, events).table[id])
  {
    if events != [] {
      var init := events[..|events| - 1];
      FactsNeverChange(table, init, id);
      CopiesAgreeOverRuns(table, init);
      StepStatus(Run(table, init), events[|events| - 1], id);
    }
  }

  // ----- when a row was read -----

  /** Place of the event that read the copy a pass holds at the end of a run. */
  ghost function ReadAt(table: Table, events: seq<Event>, job: nat, id: nat): (k: int)
    ensures -1 <= k < |events|
  {
    if events != [] && Holds(Run(table, events[..|events| - 1]), job, id)
    then ReadAt(table, events[..|events| - 1], job, id)
    else |events| - 1
  }

  /** The row read at place k is the copy, open at the time; reading changed no row. */
  ghost predicate WasReadAt(table: Table, events: seq<Event>, k: int, copy: Row, id: nat) {
    && 0 <= k < |events| && id in Run(table, events[..k]).table
    && copy == Run(table, events[..k]).table[id] && IsOpen(copy.status)
    && Run(table, events[..k + 1]).table == Run(table, events[..k]).table
  }

  lemma ReadInPrefix(table: Table, events: seq<Event>, n: nat, k: int, copy: Row, id: nat)
    requires n <= |events| && WasReadAt(table, events[..n], k, copy, id)
    ensures WasReadAt(table, events, k, copy, id)
  {
    assert events[..n][..k] == events[..k] && events[..n][..k + 1] == events[..k + 1];
  }

  lemma ReadLast(table: Table, events: seq<Event>, job: nat, id: nat)
    requires events != []
    ensures Holds(Run(table, events), job, id) && !Holds(Run(table, events[..|events| - 1]), job, id) ==>
      WasReadAt(table, events, |events| - 1, Run(table, events).jobs[job].copies[id], id)
  {
    var n := |events| - 1;
    CopiesAgreeOverRuns(table, events[..n]);
    CopyComesFrom(Run(table, events[..n]), events[n], job, id);
    assert events[..n + 1] == events;
  }

  lemma StillHeld(s: System, e: Event, job: nat, id: nat)
    requires CopiesAgree(s) && Holds(s, job, id) && Holds(Step(s, e), job, id)
    ensures Step(s, e).jobs[job].copies[id] == s.jobs[job].copies[id]
  {
    CopyComesFrom(s, e, job, id);
  }

  /** The copy a pass holds is the stored row as it was when it was read, and was open then. */
  lemma {:induction false} CopyIsTheRowRead(table: Table, events: seq<Event>, job: nat, id: nat)
    requires Holds(Run(table, events), job, id)
    ensures WasReadAt(table, events, ReadAt(table, events, job, id), Run(table, events).jobs[job].copies[id], id)
  {
    if events != [] {
      var n := |events| - 1;
      if Holds(Run(table, events[..n]), job, id) {
        CopyIsTheRowRead(table, events[..n], job, id);
        CopiesAgreeOverRuns(table, events[..n]);
        StillHeld(Run(table, events[..n]), events[n], job, id);
        var copy := Run(table, events).jobs[job].copies[id];
        ReadInPrefix(table, events, n, ReadAt(table, events[..n], job, id), copy, id);
      } else {
        ReadLast(table, events, job, id);
      }
    }
  }

  ghost predicate Writes(s: System, e: Event, id: nat) {
    Edits(e, id) || Hits(s, e, id) > 0
  }

  lemma Unwritten(s: System, e: Event, id: nat)
    requires id in s.table && !Writes(s, e, id)
    ensures id in Step(s, e).table && Step(s, e).table[id] == s.table[id]
  {
  }

  ghost predicate WritesAt(table: Table, events: seq<Event>, m: nat, id: nat)
    requires m < |events|
  {
    Writes(Run(table, events[..m]), events[m], id)
  }

  /** No event from place `from` on writes the row. */
  ghost predicate IsUnwritten(table: Table, events: seq<Event>, from: int, id: nat) {
    forall m :: 0 <= m < |events| && from <= m ==> !WritesAt(table, events, m, id)
  }

  /** The row after the first k events. */
  ghost function RowAt(table: Table, events: seq<Event>, k: nat, id: nat): Option<Row>
    requires k <= |events|
  {
    var t := Run(table, events[..k]).table;
    if id in t then Some(t[id]) else None
  }

  lemma RunTo(table: Table, events: seq<Event>, m: nat)
    requires m < |events|
    ensures Run(table, events[..m + 1]) == Step(Run(table, events[..m]), events[m])
  {
    assert events[..m + 1] == events[..m] + [events[m]];
    OneMoreEvent(table, events[..m], events[m]);
  }

  lemma UnwrittenAt(table: Table, events: seq<Event>, m: nat, id: nat)
    requires m < |events| && RowAt(table, events, m, id).Some? && !WritesAt(table, events, m, id)
    ensures RowAt(table, events, m + 1, id) == RowAt(table, events, m, id)
  {
    RunTo(table, events, m);
    Unwritten(Run(table, events[..m]), events[m], id);
  }

  lemma {:induction false} Steady<T>(values: seq<Option<T>>, from: nat, n: nat)
    requires from <= n < |values| && values[from].Some?
    requires forall m :: from <= m < n && values[m].Some? ==> values[m + 1] == values[m]
    ensures values[n] == values[from]
  {
    if from < n { Steady(values, from, n - 1); }
  }

  /** The row before each event and after the last. */
  ghost function RowsOver(table: Table, events: seq<Event>, id: nat): (rows: seq<Option<Row>>)
    ensures |rows| == |events| + 1
    ensures forall k :: 0 <= k < |rows| ==> rows[k] == RowAt(table, events, k, id)
  {
    seq(|events| + 1, k requires 0 <= k < |events| + 1 => RowAt(table, events, k, id))
  }

  lemma UnwrittenBetween(table: Table, events: seq<Event>, from: nat, id: nat)
    requires from <= |events| && RowAt(table, events, from, id).Some?
    requires IsUnwritten(table, events, from, id)
    ensures RowAt(table, events, |events|, id) == RowAt(table, events, from, id)
  {
    var rows := RowsOver(table, events, id);
    forall m | from <= m < |events| && rows[m].Some? ensures rows[m + 1] == rows[m] {
      UnwrittenAt(table, events, m, id);
    }
    Steady(rows, from, |events|);
  }

  /** The row the pass decides is the row as stored. */
  ghost predicate IsFresh(s: System, e: Event, id: nat) {
    Hits(s, e, id) > 0 ==> s.jobs[e.job].copies[id] == s.table[id]
  }

  /** No write to the row falls between the pass's read of it and this event. */
  ghost predicate IsQuietUntil(table: Table, events: seq<Event>, e: Event, id: nat) {
    Hits(Run(table, events), e, id) > 0 ==>
      IsUnwritten(table, events, ReadAt(table, events, e.job, id) + 1, id)
  }

  lemma QuietIsFresh(table: Table, events: seq<Event>, e: Event, id: nat)
    requires IsQuietUntil(table, events, e, id)
    ensures IsFresh(Run(table, events), e, id)
  {
    if Hits(Run(table, events), e, id) > 0 {
      CopyIsTheRowRead(table, events, e.job, id);
      UnwrittenBetween(table, events, ReadAt(table, events, e.job, id) + 1, id);
      assert events[..|events|] == events;
    }
  }

  /** Then the event acts as if read, decision and write were one: it adds one entry per decision,
      and resolves an open finding exactly when its report proves that fixed. */
  lemma StepIsSafe(s: System, e: Event, id: nat)
    requires CopiesAgree(s) && id in s.table && !Edits(e, id) && IsFresh(s, e, id)
    ensures var before, after := s.table[id], Step(s, e).table[id];
      && before.history <= after.history
      && |after.history| == |before.history| + Hits(s, e, id)
      && after.status == (if Proves(s, e, id) then Resolved else before.status)
      && (Proves(s, e, id) ==> IsOpen(before.status))
  {
    StepStatus(s, e, id);
    if Hits(s, e, id) > 0 {
      var j := s.jobs[e.job];
      WriteBackIs(s.table[id], j.copies[id], JobReport(j, e.engine, e.at).value, j.source, Hits(s, e, id));
    }
  }

  // ----- how often a re-check decides a finding -----

  /** A re-check's reads, with nothing in between. */
  function FetchAll(table: Table, j: Job): Job
    decreases |j.pending|
  {
    if j.pending == [] then j else FetchAll(table, FetchNext(table, j))
  }

  lemma {:induction false} OccurrencesOfConcat(a: seq<nat>, b: seq<nat>, id: nat)
    ensures Occurrences(a + b, id) == Occurrences(a, id) + Occurrences(b, id)
  {
    if b == [] {
      assert a + b == a;
    } else {
      OccurrencesOfConcat(a, b[..|b| - 1], id);
      assert (a + b)[..|a + b| - 1] == a + b[..|b| - 1];
    }
  }

  /** Every time the request names a finding that is open and has an id, it is decided once more. */
  lemma {:induction false} DecidedAsOftenAsNamed(table: Table, j: Job, id: nat)
    requires forall x :: x in j.copies ==> x in table && j.copies[x] == table[x] && RecheckKeeps(table[x])
    ensures Occurrences(FetchAll(table, j).kept, id)
         == Occurrences(j.kept, id)
            + if id in table && RecheckKeeps(table[id]) then Occurrences(j.pending, id) else 0
    decreases |j.pending|
  {
    if j.pending != [] {
      var next := FetchNext(table, j);
      DecidedAsOftenAsNamed(table, next, id);
      var first := j.pending[0];
      assert j.pending == [first] + j.pending[1..];
      OccurrencesOfConcat([first], j.pending[1..], id);
      OccurrencesOfConcat(j.kept, [first], id);
    }
  }

  // ----- what overlapping passes break -----

  lemma OneRowGivesATarget(copies: Table, id: nat)
    requires id in copies && HasTarget(copies[id])
    ensures TargetsOf(RowsOf(copies, [id])) != []
  {
    var rows := RowsOf(copies, [id]);
    assert [id][..0] == [] && RowsOf(copies, []) == [];
    assert rows == [copies[id]];
    assert copies[id] in rows && copies[id].asset.value in HostsIn(rows);
  }

  lemma OneMoreEvent(table: Table, events: seq<Event>, e: Event)
    ensures Run(table, events + [e]) == Step(Run(table, events), e)
  {
    assert (events + [e])[..|events|] == events;
  }

  /** A re-check of one finding, requested and not yet read. */
  function Waiting(id: nat, source: string): Job { Job([id], [], map[], None, source) }

  lemma AfterFetch(s: System, job: nat, id: nat, source: string)
    requires id in s.table && RecheckKeeps(s.table[id]) && job in s.jobs && s.jobs[job] == Waiting(id, source)
    ensures Step(s, Fetch(job)) == s.(jobs := s.jobs[job := Ready(s.table[id], id, source)])
  {
    assert [id][1..] == [] && [] + [id] == [id];
  }

  function Dismissed(job: nat, id: nat, source: string): seq<Event> {
    [] + [Request(job, [id], source)] + [Fetch(job)] + [Edit(id, FalsePositive)]
  }

  lemma DismissedWhileWaiting(table: Table, id: nat, job: nat, source: string)
    requires id in table && RecheckKeeps(table[id])
    ensures Run(table, Dismissed(job, id, source))
         == System(table[id := table[id].(status := FalsePositive)], map[job := Ready(table[id], id, source)])
  {
    var a, b, c := Request(job, [id], source), Fetch(job), Edit(id, FalsePositive);
    OneMoreEvent(table, [], a);
    OneMoreEvent(table, [] + [a], b);
    AfterFetch(Run(table, [] + [a]), job, id, source);
    OneMoreEvent(table, [] + [a] + [b], c);
  }

  /** An analyst dismisses a finding while its re-check waits for the scan. When the scan proves it
      fixed, the dismissal is overwritten: every finding that can be proved fixed shows it. */
  lemma DismissedBecomesResolved(table: Table, id: nat, job: nat, source: string,
                                 report: VerificationReport, at: int)
    requires id in table && HasTarget(table[id]) && ProvenFixed(table[id], report)
    ensures var s := Run(table, Dismissed(job, id, source) + [Apply(job, Some(report), at)]);
      id in s.table && s.table[id].status == Resolved
  {
    DismissedWhileWaiting(table, id, job, source);
    OneMoreEvent(table, Dismissed(job, id, source), Apply(job, Some(report), at));
    CommitResolves(Run(table, Dismissed(job, id, source)), table[id], job, id, source, report, at);
  }

  lemma CommitResolves(s: System, row: Row, job: nat, id: nat, source: string, report: VerificationReport, at: int)
    requires HasTarget(row) && id in s.table && Untouched(row, s.table[id]) && ProvenFixed(row, report)
    requires job in s.jobs && s.jobs[job] == Ready(row, id, source)
    ensures var t := Step(s, Apply(job, Some(report), at));
      id in t.table && t.table[id].status == Resolved
  {
    ReadyHits(s, row, job, id, source, report, at);
    StepOfApply(s, Apply(job, Some(report), at), id);
    WriteBackIs(s.table[id], row, report, source, 1);
  }

  /** A re-check that has read its one finding. */
  function Ready(row: Row, id: nat, source: string): Job {
    Job([], [id], map[id := row], None, source)
  }

  lemma ReadyDecidesOnce(row: Row, id: nat, source: string, report: VerificationReport, at: int)
    requires HasTarget(row)
    ensures JobReport(Ready(row, id, source), Some(report), at) == Some(report)
    ensures Occurrences([id], id) == 1
  {
    OneRowGivesATarget(map[id := row], id);
  }

  /** The commit of such a re-check, whatever the stored row has become. */
  lemma CommitOfReady(s: System, row: Row, job: nat, id: nat, source: string, report: VerificationReport, at: int)
    requires HasTarget(row) && id in s.table && Untouched(row, s.table[id])
    requires job in s.jobs && s.jobs[job] == Ready(row, id, source)
    ensures var e := Apply(job, Some(report), at);
      && Hits(s, e, id) == 1 && id in Step(s, e).table && Step(s, e).jobs == s.jobs - {job}
      && Untouched(s.table[id], Step(s, e).table[id])
      && Step(s, e).table[id].history == row.history + [Entry(Decide(row, report), report.scannedAt, source)]
  {
    ReadyHits(s, row, job, id, source, report, at);
    OneEntry(s.table[id], row, report, source);
    StepOfApply(s, Apply(job, Some(report), at), id);
  }

  lemma StepOfApply(s: System, e: Event, id: nat)
    requires e.Apply? && e.job in s.jobs && s.jobs[e.job].pending == [] && id in s.table
    ensures var t := Step(s, e);
      id in t.table && t.table[id] == AfterApply(s, e, id) && t.jobs == s.jobs - {e.job}
  {
  }

  lemma ReadyHits(s: System, row: Row, job: nat, id: nat, source: string, report: VerificationReport, at: int)
    requires HasTarget(row) && id in s.table
    requires job in s.jobs && s.jobs[job] == Ready(row, id, source)
    ensures var e := Apply(job, Some(report), at);
      Hits(s, e, id) == 1 && AfterApply(s, e, id) == WriteBack(s.table[id], row, report, source, 1)
  {
    ReadyDecidesOnce(row, id, source, report, at);
  }

  lemma OneEntry(current: Row, copy: Row, report: VerificationReport, source: string)
    requires Untouched(copy, current)
    ensures var after := WriteBack(current, copy, report, source, 1);
      && Untouched(current, after)
      && after.history == copy.history + [Entry(Decide(copy, report), report.scannedAt, source)]
  {
    var o := Decide(copy, report);
    WriteBackIs(current, copy, report, source, 1);
    assert Entries(o, report, source, 1) == [] + [Entry(o, report.scannedAt, source)];
  }

  function Overlapping(job: nat, other: nat, id: nat, source: string): seq<Event> {
    [] + [Request(job, [id], source)] + [Request(other, [id], source)] + [Fetch(job)] + [Fetch(other)]
  }

  lemma BothRequested(table: Table, id: nat, job: nat, other: nat, source: string)
    requires job != other
    ensures Run(table, [] + [Request(job, [id], source)] + [Request(other, [id], source)])
         == System(table, map[job := Waiting(id, source), other := Waiting(id, source)])
  {
    var a, b := Request(job, [id], source), Request(other, [id], source);
    OneMoreEvent(table, [], a);
    OneMoreEvent(table, [] + [a], b);
  }

  lemma BothRead(table: Table, id: nat, job: nat, other: nat, source: string)
    requires id in table && RecheckKeeps(table[id]) && job != other
    ensures var s := Run(table, Overlapping(job, other, id, source));
      s == System(table, map[job := Ready(table[id], id, source), other := Ready(table[id], id, source)])
  {
    BothRequested(table, id, job, other, source);
    var requested := [] + [Request(job, [id], source)] + [Request(other, [id], source)];
    OneMoreEvent(table, requested, Fetch(job));
    AfterFetch(Run(table, requested), job, id, source);
    OneMoreEvent(table, requested + [Fetch(job)], Fetch(other));
    AfterFetch(Run(table, requested + [Fetch(job)]), other, id, source);
  }

  /** Two re-checks of one finding whose scans overlap: both decide it, and only the second's entry
      is left. */
  lemma OverlapLosesAnEntry(table: Table, id: nat, job: nat, other: nat, source: string,
                            first: VerificationReport, second: VerificationReport, at: int)
    requires id in table && HasTarget(table[id]) && RecheckKeeps(table[id]) && job != other
    ensures var events := Overlapping(job, other, id, source);
      var e, f := Apply(job, Some(first), at), Apply(other, Some(second), at);
      && Hits(Run(table, events), e, id) == 1 && Hits(Run(table, events + [e]), f, id) == 1
      && id in Run(table, events + [e] + [f]).table
      && Run(table, events + [e] + [f]).table[id].history
         == table[id].history + [Entry(Decide(table[id], second), second.scannedAt, source)]
  {
    var events := Overlapping(job, other, id, source);
    var e, f := Apply(job, Some(first), at), Apply(other, Some(second), at);
    BothRead(table, id, job, other, source);
    CommitOfReady(Run(table, events), table[id], job, id, source, first, at);
    OneMoreEvent(table, events, e);
    CommitOfReady(Run(table, events + [e]), table[id], other, id, source, second, at);
    OneMoreEvent(table, events + [e], f);
  }

  // ----- whole runs -----
  //
  // Facts, statuses without edits and the proof behind every resolution hold however passes overlap.
  // That no entry is lost and no dismissal undone holds as long as no other write to the finding
  // falls between a pass's read of it and that pass's commit. A run is first told as the story of
  // one finding, a list of rows and of what each event meant for it; what is argued over the length
  // of a run is argued on such lists.

  // ----- one event of a run, for one finding -----

  ghost function HitsAt(table: Table, events: seq<Event>, m: nat, id: nat): nat
    requires m < |events|
  {
    Hits(Run(table, events[..m]), events[m], id)
  }

  ghost predicate ProvesAt(table: Table, events: seq<Event>, k: nat, id: nat)
    requires k < |events|
  {
    Proves(Run(table, events[..k]), events[k], id)
  }

  ghost predicate FreshAt(table: Table, events: seq<Event>, k: nat, id: nat)
    requires k < |events|
  {
    IsFresh(Run(table, events[..k]), events[k], id)
  }

  /** The finding after the first k events. */
  ghost function StandAt(table: Table, events: seq<Event>, k: nat, id: nat): Row
    requires k <= |events| && id in table
  {
    FactsNeverChange(table, events[..k], id);
    Run(table, events[..k]).table[id]
  }

  /** Every pass of the run decides this finding as it is stored at that moment. */
  ghost predicate FreshRun(table: Table, events: seq<Event>, id: nat) {
    forall k :: 0 <= k < |events| ==> FreshAt(table, events, k, id)
  }

  /** No write to the finding falls between a pass's read of it and that pass's commit. */
  ghost predicate Undisturbed(table: Table, events: seq<Event>, id: nat) {
    forall k :: 0 <= k < |events| ==> IsQuietUntil(table, events[..k], events[k], id)
  }

  lemma UndisturbedRunIsFresh(table: Table, events: seq<Event>, id: nat)
    requires Undisturbed(table, events, id)
    ensures FreshRun(table, events, id)
  {
    forall k | 0 <= k < |events| ensures FreshAt(table, events, k, id) {
      assert IsQuietUntil(table, events[..k], events[k], id);
      QuietIsFresh(table, events[..k], events[k], id);
    }
  }

  function EditOf(e: Event, id: nat): Option<Status> {
    if e.Edit? && e.id == id then Some(e.status) else None
  }

  /** An edit sets the status, else a proof resolves, else it stays. */
  function NextStatus(edit: Option<Status>, proven: bool, before: Status): Status {
    if edit.Some? then edit.value else if proven then Resolved else before
  }

  lemma StatusAt(table: Table, events: seq<Event>, m: nat, id: nat)
    requires m < |events| && id in table
    ensures StandAt(table, events, m + 1, id).status
         == NextStatus(EditOf(events[m], id), ProvesAt(table, events, m, id), StandAt(table, events, m, id).status)
  {
    RunTo(table, events, m);
    FactsNeverChange(table, events[..m], id);
    CopiesAgreeOverRuns(table, events[..m]);
    StepStatus(Run(table, events[..m]), events[m], id);
  }

  lemma HistoryAt(table: Table, events: seq<Event>, m: nat, id: nat)
    requires m < |events| && id in table && FreshAt(table, events, m, id)
    ensures var before, after := StandAt(table, events, m, id), StandAt(table, events, m + 1, id);
      && before.history <= after.history
      && |after.history| == |before.history| + HitsAt(table, events, m, id)
      && (ProvesAt(table, events, m, id) && !Edits(events[m], id) ==> IsOpen(before.status))
  {
    RunTo(table, events, m);
    FactsNeverChange(table, events[..m], id);
    CopiesAgreeOverRuns(table, events[..m]);
    var s := Run(table, events[..m]);
    if !Edits(events[m], id) {
      StepIsSafe(s, events[m], id);
    }
  }

  /** The pass at place k proves the finding fixed as it stood at place r, where it was open. */
  ghost predicate ProvedAsReadAt(table: Table, events: seq<Event>, k: nat, r: nat, id: nat)
    requires r < k < |events| && id in table
  {
    && ProvesAt(table, events, k, id)
    && Run(table, events[..k]).jobs[events[k].job].copies[id] == StandAt(table, events, r, id)
    && IsOpen(StandAt(table, events, r, id).status)
  }

  lemma ProofWasRead(table: Table, events: seq<Event>, k: nat, id: nat) returns (r: nat)
    requires k < |events| && id in table
    ensures ProvesAt(table, events, k, id) ==> r < k && ProvedAsReadAt(table, events, k, r, id)
  {
    r := 0;
    if !ProvesAt(table, events, k, id) { return; }
    CopyIsTheRowRead(table, events[..k], events[k].job, id);
    r := ReadAt(table, events[..k], events[k].job, id);
    assert events[..k][..r] == events[..r];
  }

  // ----- the story of a finding -----

  ghost function Histories(table: Table, events: seq<Event>, id: nat): (h: seq<seq<Entry>>)
    requires id in table
    ensures |h| == |events| + 1 && forall k :: 0 <= k <= |events| ==> h[k] == StandAt(table, events, k, id).history
  {
    seq(|events| + 1, k requires 0 <= k < |events| + 1 => StandAt(table, events, k, id).history)
  }

  ghost function Statuses(table: Table, events: seq<Event>, id: nat): (s: seq<Status>)
    requires id in table
    ensures |s| == |events| + 1 && forall k :: 0 <= k <= |events| ==> s[k] == StandAt(table, events, k, id).status
  {
    seq(|events| + 1, k requires 0 <= k < |events| + 1 => StandAt(table, events, k, id).status)
  }

  /** How often each event decides the finding. */
  ghost function HitList(table: Table, events: seq<Event>, id: nat): (hits: seq<nat>)
    ensures |hits| == |events| && forall m :: 0 <= m < |events| ==> hits[m] == HitsAt(table, events, m, id)
  {
    seq(|events|, m requires 0 <= m < |events| => HitsAt(table, events, m, id))
  }

  ghost function Proofs(table: Table, events: seq<Event>, id: nat): (p: seq<bool>)
    ensures |p| == |events| && forall m :: 0 <= m < |events| ==> p[m] == ProvesAt(table, events, m, id)
  {
    seq(|events|, m requires 0 <= m < |events| => ProvesAt(table, events, m, id))
  }

  function EditList(events: seq<Event>, id: nat): (edits: seq<Option<Status>>)
    ensures |edits| == |events| && forall m :: 0 <= m < |events| ==> edits[m] == EditOf(events[m], id)
  {
    seq(|events|, m requires 0 <= m < |events| => EditOf(events[m], id))
  }

  // ----- lists of entries -----

  function Sum(s: seq<nat>): nat { if s == [] then 0 else s[0] + Sum(s[1..]) }

  lemma {:induction false} SumIsZero(s: seq<nat>)
    ensures Sum(s) == 0 <==> forall i :: 0 <= i < |s| ==> s[i] == 0
  {
    if s != [] {
      SumIsZero(s[1..]);
      assert forall i :: 0 < i < |s| ==> s[i] == s[1..][i - 1];
    }
  }

  ghost predicate GrowsBy(h: seq<seq<Entry>>, hits: seq<nat>) {
    && |h| == |hits| + 1
    && forall m :: 0 <= m < |hits| ==> h[m] <= h[m + 1] && |h[m + 1]| == |h[m]| + hits[m]
  }

  lemma {:induction false} GrownSince(h: seq<seq<Entry>>, hits: seq<nat>, from: nat)
    requires GrowsBy(h, hits) && from <= |hits|
    ensures h[from] <= h[|hits|] && |h[|hits|]| == |h[from]| + Sum(hits[from..])
    decreases |hits| - from
  {
    if from < |hits| {
      GrownSince(h, hits, from + 1);
      assert hits[from..][1..] == hits[from + 1..];
    }
  }

  lemma FreshHistories(table: Table, events: seq<Event>, id: nat)
    requires id in table && FreshRun(table, events, id)
    ensures GrowsBy(Histories(table, events, id), HitList(table, events, id))
  {
    var h, hits := Histories(table, events, id), HitList(table, events, id);
    forall m | 0 <= m < |events| ensures h[m] <= h[m + 1] && |h[m + 1]| == |h[m]| + hits[m] {
      assert FreshAt(table, events, m, id);
      HistoryAt(table, events, m, id);
    }
  }

  lemma FirstAndLast(table: Table, events: seq<Event>, id: nat)
    requires id in table
    ensures StandAt(table, events, 0, id) == table[id]
    ensures id in Run(table, events).table && StandAt(table, events, |events|, id) == Run(table, events).table[id]
  {
    assert events[..0] == [] && events[..|events|] == events;
    FactsNeverChange(table, events, id);
  }

  /** Number of decisions a run makes about a finding. */
  ghost function HitsOver(table: Table, events: seq<Event>, id: nat): nat {
    Sum(HitList(table, events, id))
  }

  /** In a fresh run every history only grows, at its end, and by exactly one entry per decision. */
  lemma EveryDecisionIsRecorded(table: Table, events: seq<Event>, id: nat)
    requires id in table && FreshRun(table, events, id)
    ensures id in Run(table, events).table
    ensures table[id].history <= Run(table, events).table[id].history
    ensures |Run(table, events).table[id].history| == |table[id].history| + HitsOver(table, events, id)
  {
    FirstAndLast(table, events, id);
    FreshHistories(table, events, id);
    var hits := HitList(table, events, id);
    GrownSince(Histories(table, events, id), hits, 0);
    assert hits[0..] == hits;
  }

  /** No pass decides the finding from place `from` on. */
  ghost predicate Undecided(table: Table, events: seq<Event>, from: int, id: nat) {
    forall m :: 0 <= m < |events| && from <= m ==> HitsAt(table, events, m, id) == 0
  }

  /** From any place of a fresh run on, the history only grows, and stands still exactly while no pass decides the
      finding. */
  lemma HistoriesOnlyGrow(table: Table, events: seq<Event>, from: nat, id: nat)
    requires id in table && from <= |events| && FreshRun(table, events, id)
    ensures var before, after := StandAt(table, events, from, id).history, StandAt(table, events, |events|, id).history;
      before <= after && (Undecided(table, events, from, id) <==> before == after)
  {
    FreshHistories(table, events, id);
    var hits := HitList(table, events, id);
    GrownSince(Histories(table, events, id), hits, from);
    SumIsZero(hits[from..]);
    assert forall m :: from <= m < |events| ==> hits[m] == hits[from..][m - from];
    assert forall i :: 0 <= i < |hits[from..]| ==> hits[from..][i] == HitsAt(table, events, from + i, id);
  }

  /** After a run in which every pass decided what was stored, the next commit keeps every entry if
      and only if no other pass has decided the finding since this one read it. */
  lemma FirstLossExactly(table: Table, events: seq<Event>, e: Event, id: nat)
    requires id in table && FreshRun(table, events, id)
    ensures var s := Run(table, events);
      Hits(s, e, id) > 0 ==>
      && id in s.table && id in Step(s, e).table
      && var before, after := s.table[id].history, Step(s, e).table[id].history;
         (before <= after && |after| == |before| + Hits(s, e, id))
           <==> Undecided(table, events, ReadAt(table, events, e.job, id), id)
  {
    var s := Run(table, events);
    if Hits(s, e, id) == 0 { return; }
    var k := ReadAt(table, events, e.job, id);
    FirstAndLast(table, events, id);
    CopyIsTheRowRead(table, events, e.job, id);
    CopiesAgreeOverRuns(table, events);
    HistoriesOnlyGrow(table, events, k, id);
    CommitKeepsExactly(s, e, id);
  }

  lemma CommitKeepsExactly(s: System, e: Event, id: nat)
    requires CopiesAgree(s)
    ensures Hits(s, e, id) > 0 ==>
      && id in s.table && id in Step(s, e).table
      && var before, after := s.table[id].history, Step(s, e).table[id].history;
         (before <= after && |after| == |before| + Hits(s, e, id))
           <==> s.jobs[e.job].copies[id].history == before
  {
    if Hits(s, e, id) == 0 { return; }
    var j := s.jobs[e.job];
    StepOfApply(s, e, id);
    EntriesAreKeptExactly(s.table[id], j.copies[id], JobReport(j, e.engine, e.at).value, j.source, Hits(s, e, id));
  }

  // ----- lists of statuses -----

  /** Each status follows from the one before by an edit, else by a proof, else stays. */
  ghost predicate Follows(st: seq<Status>, proofs: seq<bool>, edits: seq<Option<Status>>) {
    && |st| == |proofs| + 1 == |edits| + 1
    && forall m :: 0 <= m < |proofs| ==> st[m + 1] == NextStatus(edits[m], proofs[m], st[m])
  }

  lemma StatusesFollow(table: Table, events: seq<Event>, id: nat)
    requires id in table
    ensures Follows(Statuses(table, events, id), Proofs(table, events, id), EditList(events, id))
  {
    var st, proofs, edits := Statuses(table, events, id), Proofs(table, events, id), EditList(events, id);
    forall m | 0 <= m < |events| ensures st[m + 1] == NextStatus(edits[m], proofs[m], st[m]) {
      StatusAt(table, events, m, id);
    }
  }

  lemma {:induction false} SomeProof(st: seq<Status>, proofs: seq<bool>, edits: seq<Option<Status>>, n: nat)
    returns (k: nat)
    requires Follows(st, proofs, edits) && n <= |proofs| && st[0] != Resolved && st[n] == Resolved
    requires forall m :: 0 <= m < n ==> edits[m] != Some(Resolved)
    ensures k < n && proofs[k]
  {
    if st[n - 1] == Resolved {
      k := SomeProof(st, proofs, edits, n - 1);
    } else {
      k := n - 1;
    }
  }

  /** The safety rule over whole runs, however passes overlap: a finding that ends resolved without
      an analyst having resolved it was resolved by one pass, whose own report covered its host and
      port and did not observe its id, as the pass read it at an earlier moment, when it was open. */
  lemma ResolvedOnlyByProof(table: Table, events: seq<Event>, id: nat) returns (k: nat, r: nat)
    requires id in table && table[id].status != Resolved
    requires id in Run(table, events).table && Run(table, events).table[id].status == Resolved
    requires forall i :: 0 <= i < |events| ==> events[i] != Edit(id, Resolved)
    ensures r < k < |events| && ProvedAsReadAt(table, events, k, r, id)
  {
    FirstAndLast(table, events, id);
    StatusesFollow(table, events, id);
    k := SomeProof(Statuses(table, events, id), Proofs(table, events, id), EditList(events, id), |events|);
    r := ProofWasRead(table, events, k, id);
  }

  ghost predicate Unedited(events: seq<Event>, from: nat, id: nat) {
    forall i :: from <= i < |events| ==> !Edits(events[i], id)
  }

  /** Every proof was of a row read open before. */
  ghost predicate ReadOpen(st: seq<Status>, proofs: seq<bool>)
    requires |st| == |proofs| + 1
  {
    forall k :: 0 <= k < |proofs| && proofs[k] ==> exists r :: 0 <= r < k && IsOpen(st[r])
  }

  lemma ProofsReadOpen(table: Table, events: seq<Event>, id: nat)
    requires id in table
    ensures ReadOpen(Statuses(table, events, id), Proofs(table, events, id))
  {
    forall k | 0 <= k < |events| && ProvesAt(table, events, k, id)
      ensures exists r :: 0 <= r < k && IsOpen(Statuses(table, events, id)[r])
    {
      var r := ProofWasRead(table, events, k, id);
      assert IsOpen(Statuses(table, events, id)[r]);
    }
  }

  lemma {:induction false} OnlyToResolved(st: seq<Status>, proofs: seq<bool>, edits: seq<Option<Status>>, n: nat)
    requires Follows(st, proofs, edits) && ReadOpen(st, proofs) && n <= |proofs|
    requires forall m :: 0 <= m < n ==> edits[m].None?
    ensures st[n] == st[0] || (IsOpen(st[0]) && st[n] == Resolved)
    decreases n
  {
    if n > 0 {
      OnlyToResolved(st, proofs, edits, n - 1);
      if proofs[n - 1] {
        var r :| 0 <= r < n - 1 && IsOpen(st[r]);
        OnlyToResolved(st, proofs, edits, r);
      }
    }
  }

  /** Without an edit, no run reopens a finding or moves it anywhere but from open to resolved. */
  lemma PassesNeverReopen(table: Table, events: seq<Event>, id: nat)
    requires id in table && Unedited(events, 0, id)
    ensures id in Run(table, events).table
    ensures Run(table, events).table[id].status == table[id].status
         || (IsOpen(table[id].status) && Run(table, events).table[id].status == Resolved)
  {
    FirstAndLast(table, events, id);
    StatusesFollow(table, events, id);
    ProofsReadOpen(table, events, id);
    OnlyToResolved(Statuses(table, events, id), Proofs(table, events, id), EditList(events, id), |events|);
  }

  lemma {:induction false} ResolvedExactlySince(st: seq<Status>, proofs: seq<bool>, edits: seq<Option<Status>>,
                                                from: nat, n: nat)
    requires Follows(st, proofs, edits) && from <= n <= |proofs| && st[from] != Resolved
    requires forall m :: from <= m < n ==> edits[m].None?
    ensures st[n] == if exists k :: from <= k < n && proofs[k] then Resolved else st[from]
    decreases n
  {
    if from < n {
      ResolvedExactlySince(st, proofs, edits, from, n - 1);
      assert proofs[n - 1] || !proofs[n - 1];
    }
  }

  /** One of the events from place `from` on proves the finding fixed. */
  ghost predicate ProvenSince(table: Table, events: seq<Event>, from: nat, id: nat) {
    exists k :: from <= k < |events| && ProvesAt(table, events, k, id)
  }

  /** From any point on without edits, a finding not yet resolved ends resolved exactly when some
      pass proves it fixed, and otherwise ends as it was. For an open finding that is the rule; for
      a dismissed one it says exactly when the dismissal is lost. */
  lemma ResolvedExactlyWhenProvenSince(table: Table, events: seq<Event>, from: nat, id: nat)
    requires id in table && from <= |events| && Unedited(events, from, id)
    requires StandAt(table, events, from, id).status != Resolved
    ensures id in Run(table, events).table
    ensures Run(table, events).table[id].status
         == if ProvenSince(table, events, from, id) then Resolved else StandAt(table, events, from, id).status
  {
    FirstAndLast(table, events, id);
    StatusesFollow(table, events, id);
    var proofs := Proofs(table, events, id);
    ResolvedExactlySince(Statuses(table, events, id), proofs, EditList(events, id), from, |events|);
    assert forall k :: 0 <= k < |events| ==> proofs[k] == ProvesAt(table, events, k, id);
  }

  lemma {:induction false} NeverOpened(st: seq<Status>, proofs: seq<bool>, edits: seq<Option<Status>>,
                                       from: nat, n: nat)
    requires Follows(st, proofs, edits) && from <= n <= |proofs| && !IsOpen(st[from])
    requires forall m :: from <= m < n ==> edits[m].None?
    ensures !IsOpen(st[n])
    decreases n
  {
    if from < n { NeverOpened(st, proofs, edits, from, n - 1); }
  }

  /** And only a pass that read the finding before it was closed can then change it. */
  lemma DismissalIsLostOnlyToAnEarlierRead(table: Table, events: seq<Event>, from: nat, k: nat, id: nat)
    returns (r: nat)
    requires id in table && from <= k < |events| && Unedited(events, from, id)
    ensures !IsOpen(StandAt(table, events, from, id).status) && ProvesAt(table, events, k, id) ==>
      r < from && r < k && ProvedAsReadAt(table, events, k, r, id)
  {
    r := ProofWasRead(table, events, k, id);
    if from <= r && r < k && !IsOpen(StandAt(table, events, from, id).status) {
      StatusesFollow(table, events, id);
      NeverOpened(Statuses(table, events, id), Proofs(table, events, id), EditList(events, id), from, r);
    }
  }

  lemma {:induction false} StaysAsClosed(st: seq<Status>, proofs: seq<bool>, edits: seq<Option<Status>>,
                                         from: nat, n: nat)
    requires Follows(st, proofs, edits) && from <= n <= |proofs| && !IsOpen(st[from])
    requires forall m :: from <= m < n ==> edits[m].None?
    requires forall m :: from <= m < n && proofs[m] ==> IsOpen(st[m])
    ensures st[n] == st[from]
    decreases n
  {
    if from < n { StaysAsClosed(st, proofs, edits, from, n - 1); }
  }

  /** A finding that is closed at some point of a fresh run stays as it is until an edit. */
  lemma ClosedStaysClosed(table: Table, events: seq<Event>, from: nat, id: nat)
    requires id in table && from <= |events| && FreshRun(table, events, id) && Unedited(events, from, id)
    requires !IsOpen(StandAt(table, events, from, id).status)
    ensures id in Run(table, events).table
    ensures Run(table, events).table[id].status == StandAt(table, events, from, id).status
  {
    FirstAndLast(table, events, id);
    StatusesFollow(table, events, id);
    var st, proofs := Statuses(table, events, id), Proofs(table, events, id);
    forall m | from <= m < |events| && proofs[m] ensures IsOpen(st[m]) {
      assert FreshAt(table, events, m, id);
      HistoryAt(table, events, m, id);
    }
    StaysAsClosed(st, proofs, EditList(events, id), from, |events|);
  }
}
