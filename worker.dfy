/** `planificar_reunion`: the per-meeting worker. Each iteration computes
    the next run time, reads the clock a second time, and then stops, opens
    the meeting or sleeps. Time is a parameter: a worker is given the
    sequence of clock readings its iterations would make, in whole seconds,
    and runs until it stops or the readings run out. */
module Worker {
  import opened Wrappers
  import opened Calendar
  import opened Schedule

  /** How long `planificar_reunion` waits after opening a meeting that is
      not one-off, before it computes again. */
  const ReopenPause := 60

  /** The longest single sleep while waiting for the run time. */
  const MaxSleep := 30

  /** What one iteration does. `Crash` is the ValueError from a malformed
      `hora` escaping `compute_next_run`, which ends the thread. */
  datatype Action =
    | Stop
    | Crash
    | OpenAndStop
    | OpenAndWait(pause: int)
    | Sleep(seconds: int)
  {
    predicate Opens() { OpenAndStop? || OpenAndWait? }
    predicate Ends() { Stop? || Crash? || OpenAndStop? }
  }

  /** One iteration's two clock readings: the one inside `compute_next_run`
      and the one just after it. */
  datatype Reading = Reading(scheduleNow: int, loopNow: int)

  /** The decision of one iteration, given the next run time, the second
      clock reading and whether the schedule is one-off. It stops exactly
      when there is no next run, crashes exactly on the ValueError, opens
      exactly when the run time has been reached (and then ends exactly for
      one-off schedules, else pauses 60 s); otherwise it sleeps between 1
      and 30 seconds, never past the run time: a full 30 s chunk, or exactly
      up to the run time. */
  function Decide(run: RunTime, now: int, oneOff: bool): (a: Action)
    ensures a == Stop <==> run == NoRun
    ensures a == Crash <==> run == ParseError
    ensures a.Opens() <==> run.RunAt? && run.at <= now
    ensures a == OpenAndStop <==> run.RunAt? && run.at <= now && oneOff
    ensures a.OpenAndWait? ==> a.pause == ReopenPause
    ensures a.Sleep? ==>
      run.RunAt? && 1 <= a.seconds <= MaxSleep && now + a.seconds <= run.at
      && (a.seconds == MaxSleep || now + a.seconds == run.at)
  {
    match run
    case NoRun => Stop
    case ParseError => Crash
    case RunAt(at) =>
      var delta := at - now;
      if delta <= 0 then
        (if oneOff then OpenAndStop else OpenAndWait(ReopenPause))
      else
        var chunk := if delta < MaxSleep then delta else MaxSleep;
        Sleep(if chunk < 1 then 1 else chunk)
  }

  /** One iteration with the readings `r`. */
  function Step(reu: Reunion, r: Reading): Action
  {
    Decide(NextRunTime(reu, r.scheduleNow), r.loopNow, IsOneOff(reu))
  }

  /** The decisions the iterations would take, one per pair of readings. */
  function Steps(reu: Reunion, clock: seq<Reading>): seq<Action>
  {
    seq(|clock|, k requires 0 <= k < |clock| => Step(reu, clock[k]))
  }

  /** The actions actually taken out of `acts`: all of them up to and
      including the first one that ends the worker. */
  function Upto(acts: seq<Action>): (t: seq<Action>)
    ensures |t| <= |acts|
  {
    if acts == [] then []
    else [acts[0]] + (if acts[0].Ends() then [] else Upto(acts[1..]))
  }

  /** What is taken is a prefix of what is decided; it is empty only when
      nothing is decided; only its last action can end the worker, and it
      stops short of the decisions only after an action that ends it. */
  lemma {:induction false} UptoShape(acts: seq<Action>)
    ensures var t := Upto(acts);
      && t == acts[..|t|]
      && (t == [] <==> acts == [])
      && (forall k :: 0 <= k < |t| - 1 ==> !t[k].Ends())
      && (|t| < |acts| ==> t[|t| - 1].Ends())
  {
    if acts != [] && !acts[0].Ends() {
      UptoShape(acts[1..]);
      var t := Upto(acts);
      var rest := Upto(acts[1..]);
      assert t == [acts[0]] + rest;
      assert forall k :: 1 <= k < |t| ==> t[k] == rest[k - 1];
    }
  }

  /** The actions of a worker fed the clock readings `clock`, up to and
      including the one that ends it. */
  function Trace(reu: Reunion, clock: seq<Reading>): (t: seq<Action>)
    ensures |t| <= |clock|
  {
    Upto(Steps(reu, clock))
  }

  /** The `while True` loop of `planificar_reunion`, run over the clock
      readings `clock`; the actions it takes are returned in order. */
  method RunWorker(reu: Reunion, clock: seq<Reading>) returns (trace: seq<Action>)
    ensures trace == Trace(reu, clock)
  {
    ghost var acts := Steps(reu, clock);
    trace := [];
    var i := 0;
    var done := false;
    while i < |clock| && !done
      invariant 0 <= i <= |clock|
      invariant done ==> trace == Upto(acts)
      invariant !done ==> trace + Upto(acts[i..]) == Upto(acts)
    {
      var action := Iteration(reu, clock[i]);
      assert action == acts[i];
      UptoStep(acts, i, trace);
      trace := trace + [action];
      done := action.Ends();
      i := i + 1;
    }
    if !done {
      assert acts[i..] == [];
    }
  }

  /** One pass of the loop body: compute the next run at the first reading,
      then decide with the second. */
  method Iteration(reu: Reunion, r: Reading) returns (action: Action)
    ensures action == Step(reu, r)
  {
    var proximo := ComputeNextRun(reu, r.scheduleNow);
    action := Decide(proximo, r.loopNow, IsOneOff(reu));
  }

  /** Taking `acts[i]` after `taken` either completes what is taken, when
      it ends the worker, or leaves the rest from `i + 1` on to be taken. */
  lemma UptoStep(acts: seq<Action>, i: nat, taken: seq<Action>)
    requires i < |acts| && taken + Upto(acts[i..]) == Upto(acts)
    ensures acts[i].Ends() ==> taken + [acts[i]] == Upto(acts)
    ensures !acts[i].Ends() ==> taken + [acts[i]] + Upto(acts[i + 1..]) == Upto(acts)
  {
    var suffix := acts[i..];
    assert suffix[0] == acts[i] && suffix[1..] == acts[i + 1..];
    var rest := if acts[i].Ends() then [] else Upto(acts[i + 1..]);
    assert Upto(suffix) == [acts[i]] + rest;
    ConcatAssoc(taken, [acts[i]], rest);
  }

  /** Associativity of `+`, stated on three plain sequences so that
      `UptoStep` need not find it among its slices. */
  lemma ConcatAssoc(a: seq<Action>, b: seq<Action>, c: seq<Action>)
    ensures a + b + c == a + (b + c)
  {
  }

  /** The worker ends exactly when an action ends it, and iteration `k`
      takes the decision for its own two readings. */
  lemma TraceShape(reu: Reunion, clock: seq<Reading>)
    ensures var t := Trace(reu, clock);
      && (t == [] <==> clock == [])
      && (forall k :: 0 <= k < |t| - 1 ==> !t[k].Ends())
      && (|t| < |clock| ==> t[|t| - 1].Ends())
      && (forall k :: 0 <= k < |t| ==> t[k] == Step(reu, clock[k]))
  {
    var acts := Steps(reu, clock);
    UptoShape(acts);
    var t := Upto(acts);
    forall k | 0 <= k < |t|
      ensures t[k] == Step(reu, clock[k])
    {
      assert t[k] == acts[k];
    }
  }

  // ---------------------------------------------------------------- as written: one-off

  /** A one-off meeting is opened at iteration `k` only if its run time falls
      strictly after the first of that iteration's clock readings and no later
      than the second: `compute_next_run` already returns None once the run
      time has been reached. */
  lemma OneOffOpensOnlyBetweenReads(reu: Reunion, clock: seq<Reading>, k: nat)
    requires IsOneOff(reu)
    requires k < |Trace(reu, clock)| && Trace(reu, clock)[k].Opens()
    ensures var r := NextRunTime(reu, clock[k].scheduleNow);
      r.RunAt? && clock[k].scheduleNow < r.at <= clock[k].loopNow
  {
    TraceShape(reu, clock);
    OneOffNextRun(reu, clock[k].scheduleNow);
  }

  /** When both readings of every iteration agree, a one-off worker never
      opens its meeting: it sleeps until the run time and then stops. If its
      readings reach the run time `at` found at the first reading, the last
      thing it does is stop. */
  lemma OneOffMissesItsRunTime(reu: Reunion, clock: seq<Reading>, at: int)
    requires IsOneOff(reu)
    requires forall k :: 0 <= k < |clock| ==> clock[k].scheduleNow == clock[k].loopNow
    requires clock != [] && NextRunTime(reu, clock[0].scheduleNow) == RunAt(at)
    requires clock[|clock| - 1].loopNow >= at
    ensures var t := Trace(reu, clock);
      && (forall k :: 0 <= k < |t| ==> !t[k].Opens())
      && t != [] && t[|t| - 1] == Stop
  {
    var t := Trace(reu, clock);
    TraceShape(reu, clock);
    OneOffNextRun(reu, clock[0].scheduleNow);
    forall k | 0 <= k < |t|
      ensures !t[k].Opens()
    {
      OneOffNextRun(reu, clock[k].scheduleNow);
    }
    var last := |t| - 1;
    OneOffNextRun(reu, clock[last].scheduleNow);
    if |t| == |clock| {
      assert NextRunTime(reu, clock[last].scheduleNow) == NoRun;
    }
  }

  // ---------------------------------------------------------------- as written: repeated openings

  /** A weekly worker opens its meeting at every iteration whose readings
      fall between the run time and the occurrence it precedes: with a lead
      of L minutes and iterations 60 s apart, that is L openings for one
      occurrence. */
  lemma WeeklyReopensThroughoutLead(reu: Reunion, clock: seq<Reading>, at: int)
    requires IsWeekly(reu)
    requires clock != [] && NextRunTime(reu, clock[0].scheduleNow) == RunAt(at)
    requires forall k :: 0 <= k < |clock| ==>
      clock[0].scheduleNow <= clock[k].scheduleNow < at + Minutes(LeadMinutes(reu))
      && at <= clock[k].loopNow
    ensures var t := Trace(reu, clock);
      |t| == |clock| && forall k :: 0 <= k < |t| ==> t[k] == OpenAndWait(ReopenPause)
  {
    var t := Trace(reu, clock);
    TraceShape(reu, clock);
    forall k | 0 <= k < |t|
      ensures t[k] == OpenAndWait(ReopenPause)
    {
      WeeklyRunStableUntilOccurrence(reu, clock[0].scheduleNow, clock[k].scheduleNow);
    }
  }

  /** A meeting without a schedule is due at every computation, so a
      worker whose second reading never precedes its first opens it at
      every iteration, 60 s apart, for as long as it runs. */
  lemma UnscheduledReopensForever(reu: Reunion, clock: seq<Reading>)
    requires !IsOneOff(reu) && !IsWeekly(reu)
    requires forall k :: 0 <= k < |clock| ==> clock[k].scheduleNow <= clock[k].loopNow
    ensures var t := Trace(reu, clock);
      |t| == |clock| && forall k :: 0 <= k < |t| ==> t[k] == OpenAndWait(ReopenPause)
  {
    var t := Trace(reu, clock);
    TraceShape(reu, clock);
    forall k | 0 <= k < |t|
      ensures t[k] == OpenAndWait(ReopenPause)
    {
      UnscheduledAndDefaultLead(reu, clock[k].scheduleNow);
    }
  }

  // ---------------------------------------------------------------- corrected worker

  /** `run` is a weekly run time as seen from `base`: the configuration
      reads and names a day, and the lead added back to `run` gives the
      first occurrence after `base` of a configured day at `hora`. */
  ghost predicate NextWeeklyRun(reu: Reunion, base: int, run: int)
  {
    && WeeklyReads(reu) && WeeklyDays(reu) != {}
    && IsNextOccurrence(run + Minutes(LeadMinutes(reu)), WeeklyDays(reu), WeeklyTime(reu), base)
  }

  /** A later computation of the corrected worker, for a weekly schedule:
      `compute_next_run` at `base`. There is a run time exactly when the
      configuration reads and names a day, and then the lead added back
      gives the first occurrence after `base` of a configured day at
      `hora`. */
  method ComputeAgain(reu: Reunion, base: int) returns (r: RunTime)
    requires IsWeekly(reu)
    ensures r.RunAt? <==> WeeklyReads(reu) && WeeklyDays(reu) != {}
    ensures r.RunAt? ==> NextWeeklyRun(reu, base, r.at)
  {
    r := ComputeNextRun(reu, base);
    if r.RunAt? {
      WeeklyRunIsNextWeeklyRun(reu, base);
    } else if WeeklyReads(reu) && WeeklyDays(reu) != {} {
      WeeklyRunExists(reu, base);
    }
  }

  /** A weekly run time `compute_next_run` gives at `base` is the next
      weekly run seen from `base`. */
  lemma WeeklyRunIsNextWeeklyRun(reu: Reunion, base: int)
    requires IsWeekly(reu) && NextRunTime(reu, base).RunAt?
    ensures NextWeeklyRun(reu, base, NextRunTime(reu, base).at)
  {
    WeeklyRunIsNextOccurrence(reu, base);
  }

  /** Where the corrected worker recomputes after serving `prev`, at the
      reading `now`: the end of the occurrence `prev` precedes, or `now`
      if that is later. */
  function RecomputeBase(reu: Reunion, prev: int, now: int): int
  {
    var ended := prev + Minutes(LeadMinutes(reu));
    if ended > now then ended else now
  }

  /** No reading of the iterations `lo` up to `hi` (exclusive) reaches `run`. */
  predicate NotReached(clock: seq<int>, lo: int, hi: int, run: int)
  {
    forall i :: lo <= i < hi && 0 <= i < |clock| ==> clock[i] < run
  }

  /** The iteration from which the `k`-th run served was pending: the
      first one for the first run, the one after the opening before it
      otherwise. */
  function PendingSince(openings: seq<nat>, k: nat): nat
    requires k <= |openings|
  {
    if k == 0 then 0 else openings[k - 1] + 1
  }

  /** Run `runs[k]` was opened at iteration `openings[k]`: the first
      iteration since it was pending whose reading reaches it. */
  predicate OpenedPromptly(clock: seq<int>, runs: seq<int>, openings: seq<nat>, k: int)
    requires 0 <= k < |runs| == |openings|
  {
    && PendingSince(openings, k) <= openings[k] < |clock|
    && runs[k] <= clock[openings[k]]
    && NotReached(clock, PendingSince(openings, k), openings[k], runs[k])
  }

  /** Every run served was opened promptly. */
  predicate Prompt(clock: seq<int>, runs: seq<int>, openings: seq<nat>)
  {
    && |runs| == |openings|
    && forall k :: 0 <= k < |openings| ==> OpenedPromptly(clock, runs, openings, k)
  }

  /** Opening a run at the first iteration since it was pending whose
      reading reaches it keeps the openings prompt. */
  lemma PromptSnoc(clock: seq<int>, runs: seq<int>, openings: seq<nat>, run: int, at: nat)
    requires Prompt(clock, runs, openings)
    requires PendingSince(openings, |openings|) <= at < |clock| && run <= clock[at]
    requires NotReached(clock, PendingSince(openings, |openings|), at, run)
    ensures Prompt(clock, runs + [run], openings + [at])
  {
    var runs', openings' := runs + [run], openings + [at];
    forall k | 0 <= k < |openings'|
      ensures OpenedPromptly(clock, runs', openings', k)
    {
      assert PendingSince(openings', k) == PendingSince(openings, k);
      if k < |openings| {
        assert openings'[k] == openings[k] && runs'[k] == runs[k];
        assert OpenedPromptly(clock, runs, openings, k);
      }
    }
  }

  /** Weekly run `k > 0` was recomputed at the iteration after the opening
      before it, from the end of the occurrence served then or from that
      reading, whichever is later. */
  ghost predicate RecomputedNext(reu: Reunion, clock: seq<int>, runs: seq<int>, openings: seq<nat>, k: int)
    requires 0 < k < |runs| == |openings|
  {
    var i := openings[k - 1] + 1;
    i < |clock| && NextWeeklyRun(reu, RecomputeBase(reu, runs[k - 1], clock[i]), runs[k])
  }

  /** After the last weekly opening, the run recomputed at the next
      iteration (if there is one) has not been reached by any reading. */
  ghost predicate LastRunPending(reu: Reunion, clock: seq<int>, runs: seq<int>, openings: seq<nat>)
    requires |runs| == |openings| && runs != []
  {
    var i := openings[|openings| - 1] + 1;
    i < |clock| ==>
      exists next :: NextWeeklyRun(reu, RecomputeBase(reu, runs[|runs| - 1], clock[i]), next)
                     && NotReached(clock, i, |clock|, next)
  }

  /** Run `k > 0` was recomputed from `base`: the end of the occurrence
      run `k - 1` precedes, or the reading of the iteration after its
      opening if that is later. */
  predicate RecomputedFrom(reu: Reunion, clock: seq<int>, runs: seq<int>, openings: seq<nat>, k: int, base: int)
    requires 0 < k < |runs| == |openings|
  {
    var i := openings[k - 1] + 1;
    i < |clock| && base == RecomputeBase(reu, runs[k - 1], clock[i])
  }

  /** Every run after the first was recomputed from `from[k]`. */
  predicate Linked(reu: Reunion, clock: seq<int>, runs: seq<int>, openings: seq<nat>, from: seq<int>)
  {
    && |runs| == |openings| == |from|
    && forall k :: 0 < k < |runs| ==> RecomputedFrom(reu, clock, runs, openings, k, from[k])
  }

  /** Every run after the first is the next weekly run seen from `from[k]`. */
  ghost predicate NextRunsFrom(reu: Reunion, runs: seq<int>, from: seq<int>)
  {
    && |runs| == |from|
    && forall k :: 0 < k < |runs| ==> NextWeeklyRun(reu, from[k], runs[k])
  }

  /** Run times strictly increase. */
  predicate Increasing(runs: seq<int>)
  {
    forall j, k :: 0 <= j < k < |runs| ==> runs[j] < runs[k]
  }

  /** A weekly run recomputed no earlier than the end of the occurrence
      `prev` precedes is later than `prev`. */
  lemma NextWeeklyRunIsLater(reu: Reunion, prev: int, base: int, run: int)
    requires prev + Minutes(LeadMinutes(reu)) <= base && NextWeeklyRun(reu, base, run)
    ensures prev < run
  {
    assert run + Minutes(LeadMinutes(reu)) > base;
  }

  /** Appending a run recomputed from `base` at the iteration after the
      last opening keeps the runs linked. */
  lemma LinkedSnoc(reu: Reunion, clock: seq<int>, runs: seq<int>, openings: seq<nat>, from: seq<int>,
                   base: int, run: int, at: nat)
    requires Linked(reu, clock, runs, openings, from)
    requires runs != [] ==>
      && openings[|openings| - 1] + 1 < |clock|
      && base == RecomputeBase(reu, runs[|runs| - 1], clock[openings[|openings| - 1] + 1])
    ensures Linked(reu, clock, runs + [run], openings + [at], from + [base])
  {
    var runs', openings', from' := runs + [run], openings + [at], from + [base];
    forall k | 0 < k < |runs'|
      ensures RecomputedFrom(reu, clock, runs', openings', k, from'[k])
    {
      assert runs'[k - 1] == runs[k - 1] && openings'[k - 1] == openings[k - 1];
      if k < |runs| {
        assert from'[k] == from[k];
        assert RecomputedFrom(reu, clock, runs, openings, k, from[k]);
      }
    }
  }

  /** Appending the next weekly run seen from `base` keeps every run the
      next one seen from where it was recomputed. */
  lemma NextRunsSnoc(reu: Reunion, runs: seq<int>, from: seq<int>, base: int, run: int)
    requires NextRunsFrom(reu, runs, from)
    requires runs != [] ==> NextWeeklyRun(reu, base, run)
    ensures NextRunsFrom(reu, runs + [run], from + [base])
  {
    var runs', from' := runs + [run], from + [base];
    forall k | 0 < k < |runs'|
      ensures NextWeeklyRun(reu, from'[k], runs'[k])
    {
      if k < |runs| {
        assert from'[k] == from[k] && runs'[k] == runs[k];
      }
    }
  }

  /** Appending a run later than the last keeps run times increasing. */
  lemma IncreasingSnoc(runs: seq<int>, run: int)
    requires Increasing(runs) && (runs != [] ==> runs[|runs| - 1] < run)
    ensures Increasing(runs + [run])
  {
    var runs' := runs + [run];
    forall j, k | 0 <= j < k < |runs'|
      ensures runs'[j] < runs'[k]
    {
      assert runs'[j] == runs[j];
      if k < |runs| {
        assert runs'[k] == runs[k];
      }
    }
  }

  /** The weekly runs served so far: each after the first recomputed at
      the iteration after the opening before it, and the next weekly run
      from there; run times strictly increase. */
  ghost predicate WeeklyServed(reu: Reunion, clock: seq<int>, runs: seq<int>, openings: seq<nat>, from: seq<int>)
  {
    Linked(reu, clock, runs, openings, from) && NextRunsFrom(reu, runs, from) && Increasing(runs)
  }

  /** The weekly run `run` now pending was recomputed, from `base`, at the
      iteration after the last opening (if there was one), and is the next
      weekly run seen from there. */
  ghost predicate PendingWeekly(reu: Reunion, clock: seq<int>, runs: seq<int>, openings: seq<nat>, base: int, run: int)
    requires |runs| == |openings|
  {
    runs != [] ==>
      var p := PendingSince(openings, |openings|);
      p < |clock| && base == RecomputeBase(reu, runs[|runs| - 1], clock[p]) && NextWeeklyRun(reu, base, run)
  }

  /** Serving the pending weekly run keeps the runs served chained. */
  lemma WeeklyServedSnoc(reu: Reunion, clock: seq<int>, runs: seq<int>, openings: seq<nat>, from: seq<int>,
                         base: int, run: int, at: nat)
    requires WeeklyServed(reu, clock, runs, openings, from)
    requires PendingWeekly(reu, clock, runs, openings, base, run)
    ensures WeeklyServed(reu, clock, runs + [run], openings + [at], from + [base])
  {
    LinkedSnoc(reu, clock, runs, openings, from, base, run, at);
    NextRunsSnoc(reu, runs, from, base, run);
    if runs != [] {
      NextWeeklyRunIsLater(reu, runs[|runs| - 1], base, run);
    }
    IncreasingSnoc(runs, run);
  }

  /** A weekly run recomputed no earlier than the end of the occurrence
      the run `prev` precedes is at least a day after `prev`: the two
      occurrences fall at the same time of day. */
  lemma NextWeeklyRunDayLater(reu: Reunion, prevBase: int, prev: int, base: int, run: int)
    requires NextWeeklyRun(reu, prevBase, prev) && NextWeeklyRun(reu, base, run)
    requires prev + Minutes(LeadMinutes(reu)) <= base
    ensures prev + DaySeconds <= run
  {
    var lead := Minutes(LeadMinutes(reu));
    SameTimeOfDayDayApart(prev + lead, run + lead);
  }

  /** The runs a weekly corrected worker serves, the first seen from the
      first reading and each later one recomputed after the one before it,
      are at least a day apart: no occurrence is served twice, and a run
      time never creeps forward from the one just served. */
  lemma {:induction false} ServedRunsDayApart(reu: Reunion, clock: seq<int>, runs: seq<int>, openings: seq<nat>)
    requires |runs| == |openings|
    requires runs != [] ==> clock != [] && NextWeeklyRun(reu, clock[0], runs[0])
    requires forall k :: 0 < k < |runs| ==> RecomputedNext(reu, clock, runs, openings, k)
    ensures forall k :: 0 < k < |runs| ==> runs[k - 1] + DaySeconds <= runs[k]
  {
    forall k | 0 < k < |runs|
      ensures runs[k - 1] + DaySeconds <= runs[k]
    {
      assert RecomputedNext(reu, clock, runs, openings, k);
      var base := RecomputeBase(reu, runs[k - 1], clock[openings[k - 1] + 1]);
      if k == 1 {
        NextWeeklyRunDayLater(reu, clock[0], runs[0], base, runs[1]);
      } else {
        assert RecomputedNext(reu, clock, runs, openings, k - 1);
        var prevBase := RecomputeBase(reu, runs[k - 2], clock[openings[k - 2] + 1]);
        NextWeeklyRunDayLater(reu, prevBase, runs[k - 1], base, runs[k]);
      }
    }
  }

  /** The loop of the corrected worker, once the first computation has
      given the run time `firstRun`. It reads the clock once per iteration
      and keeps a pending run time until a reading reaches it, then opens
      the meeting. A schedule that is not weekly ends there; a weekly one
      computes its next run at the following iteration, from the end of the
      occurrence just served or from that reading if it is later, and ends
      if that gives none.

      It returns the run times served and the iterations at which each was
      opened. Each run is opened at the first iteration since it was
      pending whose reading reaches it, and a run is left unserved only if
      no reading reaches it; a non-weekly meeting is opened at most once.
      Every weekly run after the first was recomputed after the one before
      it, so run times strictly increase. */
  method ServeRuns(reu: Reunion, clock: seq<int>, firstRun: int) returns (runs: seq<int>, openings: seq<nat>)
    ensures Prompt(clock, runs, openings)
    ensures runs != [] ==> runs[0] == firstRun
    ensures runs == [] <==> NotReached(clock, 0, |clock|, firstRun)
    ensures !IsWeekly(reu) ==> |runs| <= 1
    ensures IsWeekly(reu) ==> forall k :: 0 < k < |runs| ==> RecomputedNext(reu, clock, runs, openings, k)
    ensures IsWeekly(reu) ==> forall j, k :: 0 <= j < k < |runs| ==> runs[j] < runs[k]
    ensures WeeklyReads(reu) && WeeklyDays(reu) != {} && runs != [] ==> LastRunPending(reu, clock, runs, openings)
  {
    runs, openings := [], [];
    var weekly := IsWeekly(reu);
    var pending: Option<int> := Some(firstRun);
    var stopped := false;
    ghost var pendingFrom := 0;
    ghost var from: seq<int> := [];
    var i := 0;
    while i < |clock| && !stopped
      invariant 0 <= i <= |clock|
      invariant Prompt(clock, runs, openings)
      invariant openings != [] ==> openings[|openings| - 1] < i
      invariant runs == [] ==> pending == Some(firstRun) && !stopped
      invariant runs != [] ==> runs[0] == firstRun
      invariant !stopped && pending.Some? ==> NotReached(clock, PendingSince(openings, |openings|), i, pending.value)
      invariant !stopped && pending.None? ==> weekly && runs != [] && PendingSince(openings, |openings|) == i
      invariant !weekly ==> (stopped <==> |runs| == 1) && |runs| <= 1
      invariant weekly && stopped ==> !(WeeklyReads(reu) && WeeklyDays(reu) != {})
      invariant weekly ==> WeeklyServed(reu, clock, runs, openings, from)
      invariant weekly && !stopped && pending.Some? ==> PendingWeekly(reu, clock, runs, openings, pendingFrom, pending.value)
    {
      var now := clock[i];
      if pending.None? {
        var base := RecomputeBase(reu, runs[|runs| - 1], now);
        var r := ComputeAgain(reu, base);
        if r.RunAt? {
          pending := Some(r.at);
          pendingFrom := base;
        } else {
          stopped := true;
        }
      }
      if !stopped && now >= pending.value {
        PromptSnoc(clock, runs, openings, pending.value, i);
        if weekly {
          WeeklyServedSnoc(reu, clock, runs, openings, from, pendingFrom, pending.value, i);
        }
        runs := runs + [pending.value];
        openings := openings + [i];
        from := from + [pendingFrom];
        if !weekly {
          stopped := true;
        } else {
          pending := None;
        }
      }
      i := i + 1;
    }
    if runs != [] {
      assert OpenedPromptly(clock, runs, openings, 0);
    }
    if weekly {
      forall k | 0 < k < |runs|
        ensures RecomputedNext(reu, clock, runs, openings, k)
      {
        assert RecomputedFrom(reu, clock, runs, openings, k, from[k]);
        assert NextWeeklyRun(reu, from[k], runs[k]);
      }
    }
    if WeeklyReads(reu) && WeeklyDays(reu) != {} && runs != [] && openings[|openings| - 1] + 1 < |clock| {
      assert pending.Some?;
      assert NotReached(clock, openings[|openings| - 1] + 1, |clock|, pending.value);
    }
  }

  /** The worker as it is evidently meant to behave: it computes the first
      run time, ends at once on None, or on the ValueError of a malformed
      `hora`, and otherwise serves run times as `ServeRuns` does, reading
      the clock once per iteration and opening each run time once, at the
      first reading that reaches it. A weekly worker's first run precedes
      the first occurrence after its first reading, and each later one the
      first occurrence after the one served before it (or after the reading
      it was recomputed at). A meeting without a schedule is opened at the
      first iteration and only then.

      It returns the run times served, the iterations at which the meeting
      was opened, and whether a malformed `hora` ended it. */
  method RunWorkerCorrected(reu: Reunion, clock: seq<int>) returns (runs: seq<int>, openings: seq<nat>, crashed: bool)
    ensures Prompt(clock, runs, openings)
    ensures runs != [] ==> clock != [] && NextRunTime(reu, clock[0]) == RunAt(runs[0])
    ensures clock != [] && NextRunTime(reu, clock[0]).RunAt? ==>
              (runs == [] <==> NotReached(clock, 0, |clock|, NextRunTime(reu, clock[0]).at))
    ensures !IsWeekly(reu) ==> |runs| <= 1
    ensures !IsOneOff(reu) && !IsWeekly(reu) && clock != [] ==> runs == [clock[0]] && openings == [0]
    ensures IsWeekly(reu) && runs != [] ==> NextWeeklyRun(reu, clock[0], runs[0])
    ensures IsWeekly(reu) ==> forall k :: 0 < k < |runs| ==> RecomputedNext(reu, clock, runs, openings, k)
    ensures IsWeekly(reu) ==> forall k :: 0 < k < |runs| ==> runs[k - 1] + DaySeconds <= runs[k]
    ensures IsWeekly(reu) && runs != [] ==> LastRunPending(reu, clock, runs, openings)
    ensures crashed <==> clock != [] && NextRunTime(reu, clock[0]) == ParseError
    ensures crashed ==> runs == []
  {
    if clock == [] {
      return [], [], false;
    }
    var r := ComputeNextRun(reu, clock[0]);
    if r.NoRun? {
      return [], [], false;
    }
    if r.ParseError? {
      return [], [], true;
    }
    if IsWeekly(reu) {
      WeeklyRunIsNextWeeklyRun(reu, clock[0]);
    } else if !IsOneOff(reu) {
      UnscheduledAndDefaultLead(reu, clock[0]);
    }
    runs, openings := ServeRuns(reu, clock, r.at);
    if IsWeekly(reu) {
      ServedRunsDayApart(reu, clock, runs, openings);
    } else if !IsOneOff(reu) {
      assert !NotReached(clock, 0, |clock|, clock[0]);
      assert OpenedPromptly(clock, runs, openings, 0);
    }
    crashed := false;
  }
}
