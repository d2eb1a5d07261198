/**
 How far through an item a user is (internal/service/playback.go, internal/repository/playback.go):
 one place that judges a position, and an upsert that skips reports which change nothing.
 */
module Playback {
  import opened Text
  import opened Lists

  /** What a reported position means. */
  datatype Progress = Progress(resume: real, completed: bool)

  const RESUME_MIN_FRACTION := 0.05
  const RESUME_MAX_FRACTION := 0.90
  const RESUME_MIN_RUNTIME := 300.0

  function Evaluate(position: real, runtime: real): Progress
  {
    if position <= 0.0 || runtime <= 0.0 then Progress(0.0, false)
    else
      var fraction := position / runtime;
      if fraction > RESUME_MAX_FRACTION then Progress(0.0, true)
      else if fraction < RESUME_MIN_FRACTION then Progress(0.0, false)
      else if runtime < RESUME_MIN_RUNTIME then Progress(0.0, false)
      else Progress(position, false)
  }

  /** What the server knows of the item: nothing, or its runtime, none when it was never probed. */
  datatype Item = Unknown | Known(runtime: Option<real>)

  datatype Report = Report(position: real, stopped: bool, failed: bool, item: Item)

  datatype Row = Row(
    position: real, raw: real, played: bool, playCount: nat, lastPlayedAt: int, createdAt: int, updatedAt: int)

  type Key = (nat, nat)

  /** A report on an item whose runtime is known. */
  predicate Timed(r: Report)
  {
    r.item.Known? && r.item.runtime.Some?
  }

  function Judged(r: Report): Progress
  {
    Evaluate(r.position, if Timed(r) then r.item.runtime.value else 0.0)
  }

  /** A failed playback or one of an unknown item records nothing; the table refuses a negative position. */
  predicate Recorded(r: Report)
  {
    !r.failed && r.item.Known? && r.position >= 0.0
  }

  predicate Completes(r: Report)
  {
    Recorded(r) && Judged(r).completed
  }

  predicate CompletesViewing(r: Report)
  {
    Completes(r) && r.stopped
  }

  /** The row a report asks for, whatever was there before. */
  function Written(row: Option<Row>, r: Report, ts: int): Row
  {
    var p, delta := Judged(r), if r.stopped && Judged(r).completed then 1 else 0;
    match row
    case None => Row(p.resume, r.position, p.completed, delta, ts, ts, ts)
    case Some(was) => Row(p.resume, r.position, was.played || p.completed, was.playCount + delta, ts, was.createdAt, ts)
  }

  /** The statement's guard: something other than a timestamp would change. */
  predicate Changes(row: Option<Row>, r: Report)
  {
    var p := Judged(r);
    match row
    case None => true
    case Some(was) =>
      was.raw != r.position || was.position != p.resume || (p.completed && !was.played) || (r.stopped && p.completed)
  }

  class PlaybackStore {
    var rows: map<Key, Row>

    constructor ()
      ensures rows == map[]
    {
      rows := map[];
    }

    function Find(key: Key): Option<Row>
      reads this
    {
      if key in rows then Some(rows[key]) else None
    }

    /** The upsert: one statement, so two devices reporting at once each count. */
    method Upsert(key: Key, resume: real, raw: real, played: bool, delta: nat, ts: int)
      modifies this
      ensures key !in old(rows) ==> rows == old(rows)[key := Row(resume, raw, played, delta, ts, ts, ts)]
      ensures key in old(rows) ==>
        var was := old(rows)[key];
        var differs := was.raw != raw || was.position != resume || (played && !was.played) || delta != 0;
        var row := Row(resume, raw, was.played || played, was.playCount + delta, ts, was.createdAt, ts);
        rows == if differs then old(rows)[key := row] else old(rows)
    {
      if key !in rows {
        rows := rows[key := Row(resume, raw, played, delta, ts, ts, ts)];
        return;
      }
      var row := rows[key];
      if row.raw != raw || row.position != resume || (played && !row.played) || delta != 0 {
        rows := rows[key := Row(resume, raw, row.played || played, row.playCount + delta, ts, row.createdAt, ts)];
      }
    }

    method Record(key: Key, r: Report, ts: int) returns (progress: Progress, ok: bool)
      modifies this
      ensures !Recorded(r) ==> rows == old(rows)
      ensures ok <==> r.failed || Recorded(r)
      ensures Recorded(r) ==> progress == Judged(r)
      ensures Recorded(r) ==>
        rows == if Changes(old(Find(key)), r) then old(rows)[key := Written(old(Find(key)), r, ts)] else old(rows)
    {
      hide Evaluate;
      if r.failed {
        return Progress(0.0, false), true;
      }
      if r.item.Unknown? {
        return Progress(0.0, false), false;
      }
      progress := Evaluate(r.position, if r.item.runtime.Some? then r.item.runtime.value else 0.0);
      if r.position < 0.0 {
        return Progress(0.0, false), false;
      }
      var playCount := if r.stopped && progress.completed then 1 else 0;
      Upsert(key, progress.resume, r.position, progress.completed, playCount, ts);
      ok := true;
    }
  }

  // ---- whole runs ----

  /** One user's row for one item after a run of reports; `ts` is the clock at each. */
  function Run(reports: seq<Report>, ts: nat -> int): Option<Row>
  {
    if reports == [] then None
    else
      var n := |reports| - 1;
      var before := Run(reports[..n], ts);
      if Recorded(reports[n]) && Changes(before, reports[n]) then Some(Written(before, reports[n], ts(n))) else before
  }

  /** The same run with every recorded report written. */
  function RunAlwaysWriting(reports: seq<Report>, ts: nat -> int): Option<Row>
  {
    if reports == [] then None
    else
      var n := |reports| - 1;
      var before := RunAlwaysWriting(reports[..n], ts);
      if Recorded(reports[n]) then Some(Written(before, reports[n], ts(n))) else before
  }

  ghost predicate SameButForTimes(a: Option<Row>, b: Option<Row>)
  {
    match (a, b)
    case (None, None) => true
    case (Some(r), Some(s)) => r == s.(lastPlayedAt := r.lastPlayedAt, updatedAt := r.updatedAt)
    case _ => false
  }

  /** Suppressing no-ops loses nothing but timestamps. */
  lemma {:induction false} SuppressionLosesOnlyTimes(reports: seq<Report>, ts: nat -> int)
    ensures SameButForTimes(Run(reports, ts), RunAlwaysWriting(reports, ts))
  {
    hide Judged;
    if reports != [] {
      SuppressionLosesOnlyTimes(reports[..|reports| - 1], ts);
    }
  }

  /** The last recorded report of a run. */
  function Last(reports: seq<Report>): Option<Report>
  {
    var recorded := Filter(Recorded, reports);
    if recorded == [] then None else Some(recorded[|recorded| - 1])
  }

  /** A row tells: whether any report completed, how many completed stops there were, and the last position. */
  ghost predicate Summarises(row: Option<Row>, recorded: seq<Report>, completed: seq<Report>, viewings: seq<Report>)
  {
    match row
    case None => recorded == [] && completed == [] && viewings == []
    case Some(r) =>
      && recorded != []
      && (r.played <==> completed != [])
      && r.playCount == |viewings|
      && r.raw == recorded[|recorded| - 1].position
      && r.position == Judged(recorded[|recorded| - 1]).resume
  }

  lemma SummaryStep(row: Option<Row>, recorded: seq<Report>, completed: seq<Report>, viewings: seq<Report>, r: Report,
                    ts: int)
    requires Summarises(row, recorded, completed, viewings) && Recorded(r)
    ensures Summarises(if Changes(row, r) then Some(Written(row, r, ts)) else row, recorded + [r],
                       completed + (if Completes(r) then [r] else []),
                       viewings + (if CompletesViewing(r) then [r] else []))
  {
    hide Judged;
  }

  lemma FilterByName(reports: seq<Report>)
    requires reports != []
    ensures var init, last := reports[..|reports| - 1], reports[|reports| - 1];
      && Filter(Recorded, reports) == Filter(Recorded, init) + (if Recorded(last) then [last] else [])
      && Filter(Completes, reports) == Filter(Completes, init) + (if Completes(last) then [last] else [])
      && Filter(CompletesViewing, reports) ==
         Filter(CompletesViewing, init) + (if CompletesViewing(last) then [last] else [])
  {
    hide Recorded, Completes, CompletesViewing;
  }

  /**
   After any run: played exactly when some recorded report completed, the play count is the number
   of completed stops, and the positions are those of the last recorded report.
   */
  lemma {:induction false} RunSummary(reports: seq<Report>, ts: nat -> int)
    ensures Summarises(Run(reports, ts), Filter(Recorded, reports), Filter(Completes, reports),
      Filter(CompletesViewing, reports))
  {
    hide Summarises, Filter, Judged;
    if reports != [] {
      var n := |reports| - 1;
      var init, last := reports[..n], reports[n];
      RunSummary(init, ts);
      FilterByName(reports);
      if Recorded(last) {
        SummaryStep(Run(init, ts), Filter(Recorded, init), Filter(Completes, init), Filter(CompletesViewing, init),
            last, ts(n));
      } else {
        assert Filter(Recorded, init) + [] == Filter(Recorded, init) &&
            Filter(Completes, init) + [] == Filter(Completes, init);
        assert Filter(CompletesViewing, init) + [] == Filter(CompletesViewing, init);
      }
    } else {
      EmptySummary();
    }
  }

  lemma EmptySummary()
    ensures Summarises(None, Filter(Recorded, []), Filter(Completes, []), Filter(CompletesViewing, []))
  {
  }

  /** Played and the play count do not depend on the order the reports arrived in. */
  lemma OrderOfReportsIrrelevant(reports: seq<Report>, other: seq<Report>, ts: nat -> int, clock: nat -> int)
    requires multiset(reports) == multiset(other)
    ensures Run(reports, ts).Some? <==> Run(other, clock).Some?
    ensures Run(reports, ts).Some? ==>
      Run(reports, ts).value.played == Run(other, clock).value.played &&
      Run(reports, ts).value.playCount == Run(other, clock).value.playCount
  {
    hide Run;
    RunSummary(reports, ts);
    RunSummary(other, clock);
    FilterPermuted(Recorded, reports, other);
    FilterPermuted(Completes, reports, other);
    FilterPermuted(CompletesViewing, reports, other);
  }

  /** A kept resume position lies between the two thresholds of a long enough runtime. */
  lemma ResumeWithinThresholds(reports: seq<Report>, ts: nat -> int)
    requires Run(reports, ts).Some? && Run(reports, ts).value.position != 0.0
    ensures Last(reports).Some? && Timed(Last(reports).value)
    ensures var runtime := Last(reports).value.item.runtime.value;
      && runtime >= RESUME_MIN_RUNTIME
      && RESUME_MIN_FRACTION * runtime <= Run(reports, ts).value.position <= RESUME_MAX_FRACTION * runtime
      && Run(reports, ts).value.position == Run(reports, ts).value.raw
  {
    RunSummary(reports, ts);
    EvaluateBounds(Last(reports).value);
  }

  lemma EvaluateBounds(r: Report)
    ensures Judged(r).resume != 0.0 ==>
      && Timed(r) && r.item.runtime.value >= RESUME_MIN_RUNTIME
      && RESUME_MIN_FRACTION * r.item.runtime.value <= r.position <= RESUME_MAX_FRACTION * r.item.runtime.value
      && Judged(r).resume == r.position
  {
    if Judged(r).resume != 0.0 {
      FractionBounds(r.position, r.item.runtime.value, RESUME_MIN_FRACTION);
      FractionBounds(r.position, r.item.runtime.value, RESUME_MAX_FRACTION);
    }
  }

  lemma FractionBounds(x: real, y: real, c: real)
    requires y > 0.0
    ensures x / y >= c ==> c * y <= x
    ensures x / y <= c ==> x <= c * y
  {
    var f := x / y;
    assert x == f * y;
  }

  // ---- the same in numbers ----

  /** Neither failed nor of an unknown item, at a position the table takes. */
  predicate Counted(r: Report)
  {
    !r.failed && r.item.Known? && r.position >= 0.0
  }

  /** Past nine tenths of a runtime that is known. */
  predicate PastNineTenths(r: Report)
  {
    Counted(r) && r.item.runtime.Some? && r.item.runtime.value > 0.0 && r.position > 0.90 * r.item.runtime.value
  }

  predicate StoppedPastNineTenths(r: Report)
  {
    PastNineTenths(r) && r.stopped
  }

  /** From a twentieth to nine tenths of a runtime of five minutes or more. */
  predicate WorthResuming(r: Report)
  {
    && r.item.Known? && r.item.runtime.Some? && r.item.runtime.value >= 300.0
    && r.position > 0.0 && 0.05 * r.item.runtime.value <= r.position <= 0.90 * r.item.runtime.value
  }

  lemma FractionExactly(x: real, y: real, c: real)
    requires y > 0.0
    ensures x / y > c <==> x > c * y
    ensures x / y < c <==> x < c * y
  {
    var f := x / y;
    assert x == f * y;
    assert f > c ==> (f - c) * y > 0.0;
    assert f < c ==> (c - f) * y > 0.0;
  }

  /** One report: what it completes, and the position it leaves. */
  lemma JudgedExactly(r: Report)
    ensures Recorded(r) <==> Counted(r)
    ensures Completes(r) <==> PastNineTenths(r)
    ensures CompletesViewing(r) <==> StoppedPastNineTenths(r)
    ensures Judged(r).resume == if WorthResuming(r) then r.position else 0.0
  {
    if Timed(r) && r.item.runtime.value > 0.0 {
      FractionExactly(r.position, r.item.runtime.value, 0.90);
      FractionExactly(r.position, r.item.runtime.value, 0.05);
    }
  }

  ghost predicate LastCounted(reports: seq<Report>, k: nat)
  {
    k < |reports| && Counted(reports[k]) && forall i :: k < i < |reports| ==> !Counted(reports[i])
  }

  ghost predicate FirstCounted(reports: seq<Report>, k: nat)
  {
    k < |reports| && Counted(reports[k]) && forall i :: 0 <= i < k ==> !Counted(reports[i])
  }

  /**
   After any run: a row exactly when some report counts; played exactly when one is past nine tenths of its
   runtime; the play count is the number of stopped ones among those; the position reported last stands,
   and it is the one to resume at exactly when it lies from a twentieth to nine tenths of five minutes or
   more, which is 0 otherwise.
   */
  lemma RunMeasured(reports: seq<Report>, ts: nat -> int)
    ensures Run(reports, ts).Some? <==> exists k :: 0 <= k < |reports| && Counted(reports[k])
    ensures Run(reports, ts).Some? ==>
      var row := Run(reports, ts).value;
      && (row.played <==> exists k :: 0 <= k < |reports| && PastNineTenths(reports[k]))
      && row.playCount == |Filter(StoppedPastNineTenths, reports)|
      && forall k: nat :: LastCounted(reports, k) ==>
           row.raw == reports[k].position
           && row.position == if WorthResuming(reports[k]) then reports[k].position else 0.0
  {
    hide Run, Filter, Recorded, Completes, CompletesViewing, Judged, Counted, PastNineTenths, StoppedPastNineTenths,
      WorthResuming;
    forall r: Report
      ensures Recorded(r) <==> Counted(r)
      ensures Completes(r) <==> PastNineTenths(r)
      ensures CompletesViewing(r) <==> StoppedPastNineTenths(r)
      ensures Judged(r).resume == if WorthResuming(r) then r.position else 0.0
    {
      JudgedExactly(r);
    }
    RunSummary(reports, ts);
    FilterSame(CompletesViewing, StoppedPastNineTenths, reports);
    NonEmptyFilter(Recorded, reports);
    NonEmptyFilter(Completes, reports);
    forall k: nat | LastCounted(reports, k)
      ensures Filter(Recorded, reports) != []
      ensures Filter(Recorded, reports)[|Filter(Recorded, reports)| - 1] == reports[k]
    {
      FilterLast(Recorded, reports, k);
    }
  }

  lemma NonEmptyFilter(p: Report -> bool, reports: seq<Report>)
    ensures Filter(p, reports) != [] <==> exists k :: 0 <= k < |reports| && p(reports[k])
  {
    hide Filter;
    FilterMembers(p, reports);
    if Filter(p, reports) != [] {
      assert Filter(p, reports)[0] in reports;
    }
    if k :| 0 <= k < |reports| && p(reports[k]) {
      assert reports[k] in Filter(p, reports);
    }
  }

  /**
   The row is created by the first report that counts; its other two times are those of one report that
   counts, after which the row has not changed.
   */
  lemma {:induction false} RunTimes(reports: seq<Report>, ts: nat -> int)
    ensures Run(reports, ts).Some? ==>
      var row := Run(reports, ts).value;
      && (exists k :: FirstCounted(reports, k) && row.createdAt == ts(k))
      && (exists k :: 0 <= k < |reports| && Counted(reports[k]) && row.lastPlayedAt == row.updatedAt == ts(k)
                      && Run(reports[..k + 1], ts) == Run(reports, ts))
  {
    hide Judged;
    if reports != [] {
      var n := |reports| - 1;
      var init := reports[..n];
      RunTimes(init, ts);
      RunCounted(init, ts);
      assert reports[..n + 1] == reports;
      if Run(init, ts).Some? {
        var k :| FirstCounted(init, k) && Run(init, ts).value.createdAt == ts(k);
        assert FirstCounted(reports, k);
        var j :| 0 <= j < |init| && Counted(init[j]) && Run(init, ts).value.lastPlayedAt == ts(j)
          && Run(init[..j + 1], ts) == Run(init, ts);
        assert reports[..j + 1] == init[..j + 1] && Counted(reports[j]);
      } else {
        assert Counted(reports[n]) ==> FirstCounted(reports, n);
      }
      assert Counted(reports[n]) ==> reports[..n + 1] == reports;
    }
  }

  lemma RunCounted(reports: seq<Report>, ts: nat -> int)
    ensures Run(reports, ts).None? ==> forall k :: 0 <= k < |reports| ==> !Counted(reports[k])
  {
    hide Run, Counted;
    RunMeasured(reports, ts);
  }
}
