/**
 The frame scheduler of the render loop as a timed state machine: events apply at once and
 are drawn under a frame budget, and the peak countdown wakes on an interval of its own.
 */
module Scheduler {
  import opened Pastes

  type Time = nat

  datatype Phase = Drawing | Listening

  /** The loop's state at time `now`.  The fields from `dirty` on are bookkeeping: since when a
      change waits to be drawn, whether a media write forced the coming draw, when the
      countdown last ticked, when the draw started that armed it and when that draw ended, and
      when the last burst began: a draw and those that its media forced. */
  datatype State = State(
    phase: Phase,
    now: Time,
    lastDraw: Time,
    deadline: Option<Time>,
    peak: Option<Time>,
    dirty: Option<Time>,
    forced: bool,
    lastTick: Time,
    armStart: Time,
    armed: Time,
    burst: Time)

  datatype Step =
    | Draw(start: Time, done: Time, media: bool, interval: Option<nat>)
    | FrameTimer(at: Time)
    | PeakTimer(at: Time)
    | Event(at: Time, changed: bool)

  /** `arm_peak_wake`: an armed deadline is kept until it fires or the schedule is withdrawn. */
  function ArmPeakWake(now: Time, interval: Option<nat>, armed: Option<Time>): Option<Time> {
    match (interval, armed)
    case (Some(_), Some(at)) => Some(at)
    case (Some(i), None) => Some(now + i)
    case (None, _) => None
  }

  const START := State(Drawing, 0, 0, None, None, None, true, 0, 0, 0, 0)

  function Max(a: nat, b: nat): nat {
    if a >= b then a else b
  }

  /** The one draw decision for every event that changed something at time t. */
  function Decide(s: State, budget: Option<nat>, t: Time): State {
    var s := s.(now := t, dirty := if s.dirty.None? then Some(t) else s.dirty);
    match budget
    case None => s.(phase := Drawing, deadline := None, forced := false)
    case Some(b) =>
      if t >= s.lastDraw + b then s.(phase := Drawing, deadline := None, forced := false)
      else s.(deadline := Some(s.lastDraw + b))
  }

  /** One step.  A draw keeps the countdown's armed deadline; with `kept` false it derives
      the deadline anew instead, which the loop does not do. */
  function Next(s: State, budget: Option<nat>, step: Step, kept: bool := true): State {
    match step
    case Draw(start, done, media, interval) =>
      var peak := if kept then s.peak else None;
      s.(phase := if media then Drawing else Listening, now := done, lastDraw := done,
         peak := ArmPeakWake(done, interval, peak), dirty := None, forced := media,
         armStart := if peak.None? then start else s.armStart,
         armed := if peak.None? then done else s.armed,
         burst := if s.forced then s.burst else start)
    case FrameTimer(t) => s.(phase := Drawing, now := t, deadline := None, forced := false)
    case PeakTimer(t) => Decide(s.(peak := None, lastTick := t), budget, t)
    case Event(t, changed) => if changed then Decide(s, budget, t) else s.(now := t)
  }

  /** A draw follows a draw decision; timers fire no earlier than they are due; time does
      not run back. */
  predicate Enabled(s: State, step: Step) {
    match step
    case Draw(start, done, media, interval) => s.phase.Drawing? && s.now <= start <= done
    case FrameTimer(t) => s.phase.Listening? && s.deadline.Some? && s.now <= t && s.deadline.value <= t
    case PeakTimer(t) => s.phase.Listening? && s.peak.Some? && s.now <= t && s.peak.value <= t
    case Event(t, changed) => s.phase.Listening? && s.now <= t
  }

  ghost predicate Possible(s: State, budget: Option<nat>, steps: seq<Step>, kept: bool := true)
    decreases |steps|
  {
    steps == []
    || (Enabled(s, steps[0]) && Possible(Next(s, budget, steps[0], kept), budget, steps[1..], kept))
  }

  ghost function Run(s: State, budget: Option<nat>, steps: seq<Step>, kept: bool := true): State
    decreases |steps|
  {
    if steps == [] then s else Run(Next(s, budget, steps[0], kept), budget, steps[1..], kept)
  }

  // The frame deadline -------------------------------------------------------------------------

  /** While listening the deadline is absent or exactly one budget after the last draw, and
      a change that waits to be drawn has it armed; a draw that no media write forced comes
      a whole budget after the one before. */
  ghost predicate Inv(s: State, budget: Option<nat>) {
    && s.lastDraw <= s.now
    && (s.deadline.Some? ==> budget.Some? && s.deadline == Some(s.lastDraw + budget.value))
    && (s.phase.Drawing? ==> s.deadline.None?)
    && (s.phase.Listening? ==> (s.dirty.Some? <==> s.deadline.Some?))
    && (s.dirty.Some? ==> s.lastDraw <= s.dirty.value <= s.now)
    && (s.phase.Drawing? && !s.forced && budget.Some? ==> s.now >= s.lastDraw + budget.value)
  }

  lemma InvKept(s: State, budget: Option<nat>, step: Step)
    requires Inv(s, budget) && Enabled(s, step)
    ensures Inv(Next(s, budget, step), budget)
  {}

  lemma {:induction false} InvHolds(s: State, budget: Option<nat>, steps: seq<Step>)
    requires Inv(s, budget) && Possible(s, budget, steps)
    ensures Inv(Run(s, budget, steps), budget)
    decreases |steps|
  {
    if steps != [] {
      InvKept(s, budget, steps[0]);
      InvHolds(Next(s, budget, steps[0]), budget, steps[1..]);
    }
  }

  /** In every run, two draws in a row are a budget apart, from the end of the first to the
      start of the second, unless the first wrote media. */
  lemma DrawsApart(budget: nat, before: seq<Step>, first: Step, between: seq<Step>, second: Step)
    requires first.Draw? && second.Draw? && !first.media
    requires forall i :: 0 <= i < |between| ==> !between[i].Draw?
    requires Possible(START, Some(budget), before)
    requires var s := Run(START, Some(budget), before);
      && Enabled(s, first)
      && var s1 := Next(s, Some(budget), first);
         Possible(s1, Some(budget), between) && Enabled(Run(s1, Some(budget), between), second)
    ensures second.start >= first.done + budget
  {
    var s := Run(START, Some(budget), before);
    InvHolds(START, Some(budget), before);
    var s1 := Next(s, Some(budget), first);
    InvKept(s, Some(budget), first);
    InvHolds(s1, Some(budget), between);
    NoDrawBetween(s1, Some(budget), between);
  }

  lemma {:induction false} NoDrawBetween(s: State, budget: Option<nat>, steps: seq<Step>)
    requires s.phase.Listening? && Possible(s, budget, steps)
    requires forall i :: 0 <= i < |steps| ==> !steps[i].Draw?
    ensures Run(s, budget, steps).lastDraw == s.lastDraw
    ensures Run(s, budget, steps).phase.Drawing? ==> !Run(s, budget, steps).forced
    decreases |steps|
  {
    if steps != [] {
      var s' := Next(s, budget, steps[0]);
      assert |steps| > 1 ==> steps[1..][0] == steps[1];
      if s'.phase.Listening? {
        NoDrawBetween(s', budget, steps[1..]);
      }
    }
  }

  // Prompt runs ----------------------------------------------------------------------------------

  /** A step that keeps to its time: a draw starts when it was decided, and while listening
      nothing happens later than a timer that is due. */
  predicate Prompt(s: State, step: Step) {
    match step
    case Draw(start, done, media, interval) => start == s.now
    case FrameTimer(t) => t <= Max(s.deadline.GetOr(t), s.now) && t <= Max(s.peak.GetOr(t), s.now)
    case PeakTimer(t) => t <= Max(s.deadline.GetOr(t), s.now) && t <= Max(s.peak.GetOr(t), s.now)
    case Event(t, changed) => t <= Max(s.deadline.GetOr(t), s.now) && t <= Max(s.peak.GetOr(t), s.now)
  }

  ghost predicate AllPrompt(s: State, budget: Option<nat>, steps: seq<Step>, kept: bool := true)
    decreases |steps|
  {
    steps == []
    || (Prompt(s, steps[0]) && AllPrompt(Next(s, budget, steps[0], kept), budget, steps[1..], kept))
  }

  /** No time passes between a change and its draw beyond what the budget asks for. */
  ghost predicate InTime(s: State, budget: Option<nat>) {
    && (s.phase.Listening? && s.deadline.Some? ==> s.now <= s.deadline.value)
    && (s.dirty.Some? ==>
          s.now <= Max(s.dirty.value, if budget.Some? then s.lastDraw + budget.value else s.dirty.value))
  }

  lemma InTimeKept(s: State, budget: Option<nat>, step: Step)
    requires Inv(s, budget) && InTime(s, budget) && Enabled(s, step) && Prompt(s, step)
    ensures InTime(Next(s, budget, step), budget)
  {}

  /** With prompt timers every change is drawn by the later of its own time and one budget
      after the draw before it: as long as it waits, that moment has not passed. */
  lemma {:induction false} ChangesDrawnInTime(s: State, budget: Option<nat>, steps: seq<Step>)
    requires Inv(s, budget) && InTime(s, budget)
    requires Possible(s, budget, steps) && AllPrompt(s, budget, steps)
    ensures InTime(Run(s, budget, steps), budget)
    decreases |steps|
  {
    if steps != [] {
      InvKept(s, budget, steps[0]);
      InTimeKept(s, budget, steps[0]);
      ChangesDrawnInTime(Next(s, budget, steps[0]), budget, steps[1..]);
    }
  }

  // The peak countdown -----------------------------------------------------------------------------

  /** The schedule is never withdrawn and the countdown does not tick. */
  predicate NoTick(step: Step) {
    !step.PeakTimer? && (step.Draw? ==> step.interval.Some?)
  }

  /** Whatever else redraws, an armed countdown keeps the deadline it was first given. */
  lemma {:induction false} PeakKept(s: State, budget: Option<nat>, steps: seq<Step>)
    requires s.peak.Some? && forall i :: 0 <= i < |steps| ==> NoTick(steps[i])
    ensures Run(s, budget, steps).peak == s.peak
    decreases |steps|
  {
    if steps != [] {
      assert NoTick(steps[0]);
      PeakKept(Next(s, budget, steps[0]), budget, steps[1..]);
    }
  }

  /** Once a draw has found the schedule withdrawn, the countdown stays disarmed and never ticks
      until a draw finds a schedule again. */
  lemma {:induction false} WithdrawnSilent(s: State, budget: Option<nat>, start: Time, done: Time, media: bool,
                                           steps: seq<Step>)
    requires forall i :: 0 <= i < |steps| && steps[i].Draw? ==> steps[i].interval.None?
    requires var draw := Draw(start, done, media, None);
      Enabled(s, draw) && Possible(Next(s, budget, draw), budget, steps)
    ensures Run(Next(s, budget, Draw(start, done, media, None)), budget, steps).peak.None?
    ensures forall i :: 0 <= i < |steps| ==> !steps[i].PeakTimer?
  {
    DisarmedSilent(Next(s, budget, Draw(start, done, media, None)), budget, steps);
  }

  lemma {:induction false} DisarmedSilent(s: State, budget: Option<nat>, steps: seq<Step>)
    requires s.peak.None? && Possible(s, budget, steps)
    requires forall i :: 0 <= i < |steps| && steps[i].Draw? ==> steps[i].interval.None?
    ensures Run(s, budget, steps).peak.None?
    ensures forall i :: 0 <= i < |steps| ==> !steps[i].PeakTimer?
    decreases |steps|
  {
    if steps != [] {
      DisarmedSilent(Next(s, budget, steps[0]), budget, steps[1..]);
      assert forall i :: 0 < i < |steps| ==> steps[i] == steps[1..][i - 1];
    }
  }

  /** A countdown that is armed after a run either was so before it and nothing touched it, or one
      of the draws armed it, its interval after the end of that draw, and nothing touched it since. */
  lemma {:induction false} ArmedByDraw(s: State, budget: Option<nat>, steps: seq<Step>) returns (k: Option<nat>)
    requires Run(s, budget, steps).peak.Some?
    ensures k.None? ==> Run(s, budget, steps).peak == s.peak && forall i :: 0 <= i < |steps| ==> NoTick(steps[i])
    ensures k.Some? ==>
      && k.value < |steps| && steps[k.value].Draw? && steps[k.value].interval.Some?
      && Run(s, budget, steps).peak == Some(steps[k.value].done + steps[k.value].interval.value)
      && forall i :: k.value < i < |steps| ==> NoTick(steps[i])
    decreases |steps|
  {
    if steps == [] {
      return None;
    }
    var later := ArmedByDraw(Next(s, budget, steps[0]), budget, steps[1..]);
    assert forall i :: 0 < i < |steps| ==> steps[i] == steps[1..][i - 1];
    if later.Some? {
      return Some(later.value + 1);
    }
    return if s.peak.Some? then None else Some(0);
  }

  /** In any run a draw is followed by another draw at once exactly when it wrote media; after any
      other draw the loop listens. */
  lemma {:induction false} DrawsAgainIff(s: State, budget: Option<nat>, steps: seq<Step>, k: nat)
    requires Possible(s, budget, steps) && k + 1 < |steps| && steps[k].Draw?
    ensures steps[k + 1].Draw? <==> steps[k].media
    decreases k
  {
    if k > 0 {
      DrawsAgainIff(Next(s, budget, steps[0]), budget, steps[1..], k - 1);
    } else {
      assert steps[1..][0] == steps[1];
    }
  }

  /** What an event does: an unchanged one lets time pass and nothing else; a change is drawn at
      once exactly when a budget has passed since the last draw, and else when it has. */
  lemma EventDrawsIff(s: State, budget: Option<nat>, at: Time)
    requires Inv(s, budget) && s.phase.Listening?
    ensures Next(s, budget, Event(at, false)) == s.(now := at)
    ensures var e := Next(s, budget, Event(at, true));
      && (e.phase.Drawing? <==> budget.None? || at >= s.lastDraw + budget.value)
      && (e.phase.Listening? ==> e.deadline == Some(s.lastDraw + budget.value))
      && e.dirty == (if s.dirty.Some? then s.dirty else Some(at)) && e.peak == s.peak
  {}

  /** When the countdown is due, no other wake-up is taken before it. */
  predicate PeakFirst(s: State, step: Step) {
    s.peak.Some? && (step.FrameTimer? || step.Event?) ==> step.at < s.peak.value
  }

  /** Nothing overtakes a due countdown forever: draws are capped, or ties go to it. */
  ghost predicate AllFair(s: State, budget: Option<nat>, steps: seq<Step>)
    decreases |steps|
  {
    steps == []
    || ((budget.GetOr(0) > 0 || PeakFirst(s, steps[0])) && AllFair(Next(s, budget, steps[0]), budget, steps[1..]))
  }

  /** With a cap there is nothing to ask of ties. */
  lemma {:induction false} CappedFair(s: State, budget: nat, steps: seq<Step>)
    requires budget > 0
    ensures AllFair(s, Some(budget), steps)
    decreases |steps|
  {
    if steps != [] {
      CappedFair(Next(s, Some(budget), steps[0]), budget, steps[1..]);
    }
  }

  /** An armed countdown is not passed over, except by the end of a burst of draws that began
      before it was due. */
  ghost predicate Late(s: State) {
    s.peak.Some? ==>
      && s.burst <= s.peak.value
      && (s.phase.Listening? ==> s.now <= Max(s.peak.value, s.lastDraw))
      && (s.phase.Drawing? ==> if s.forced then s.now == s.lastDraw else s.now <= s.peak.value)
  }

  lemma LateKept(s: State, budget: Option<nat>, step: Step)
    requires Inv(s, budget) && Late(s) && Enabled(s, step) && Prompt(s, step)
    requires s.phase.Drawing? && s.forced ==> s.burst <= s.now
    requires budget.GetOr(0) > 0 || PeakFirst(s, step)
    ensures Late(Next(s, budget, step))
    ensures var e := Next(s, budget, step); e.phase.Drawing? && e.forced ==> e.burst <= e.now
  {}

  lemma {:induction false} LateHolds(s: State, budget: Option<nat>, steps: seq<Step>)
    requires Inv(s, budget) && Late(s) && (s.phase.Drawing? && s.forced ==> s.burst <= s.now)
    requires Possible(s, budget, steps) && AllPrompt(s, budget, steps) && AllFair(s, budget, steps)
    ensures Late(Run(s, budget, steps))
    decreases |steps|
  {
    if steps != [] {
      InvKept(s, budget, steps[0]);
      LateKept(s, budget, steps[0]);
      LateHolds(Next(s, budget, steps[0]), budget, steps[1..]);
    }
  }

  /** In every run with prompt timers, whatever else redraws, a tick is late by no more than
      the burst of draws in progress when it came due. */
  lemma TickOnTime(budget: Option<nat>, steps: seq<Step>, at: Time)
    requires Possible(START, budget, steps) && AllPrompt(START, budget, steps) && AllFair(START, budget, steps)
    requires var s := Run(START, budget, steps); Enabled(s, PeakTimer(at)) && Prompt(s, PeakTimer(at))
    ensures var s := Run(START, budget, steps);
      s.peak.value <= at <= Max(s.peak.value, s.lastDraw) && s.burst <= s.peak.value
  {
    LateHolds(START, budget, steps);
  }

  /** The schedule governs the model and asks for this interval at each draw, and a burst of
      draws takes no longer than d. */
  predicate Asks(s: State, step: Step, interval: nat, d: nat) {
    step.Draw? ==> step.interval == Some(interval) && step.done <= (if s.forced then s.burst else step.start) + d
  }

  ghost predicate AllAsk(s: State, budget: Option<nat>, steps: seq<Step>, interval: nat, d: nat)
    decreases |steps|
  {
    steps == []
    || (Asks(s, steps[0], interval, d) && AllAsk(Next(s, budget, steps[0]), budget, steps[1..], interval, d))
  }

  /** The countdown is armed by the first draw after a tick, which comes within a budget. */
  ghost predicate Ticking(s: State, budget: Option<nat>, interval: nat, d: nat) {
    && s.lastDraw <= s.burst + d
    && if s.peak.Some? then
         && s.peak.value == s.armed + interval
         && s.armed <= s.armStart + d && s.armStart <= s.lastTick + budget.GetOr(0)
       else
         && (s.phase.Drawing? ==> s.now <= s.lastTick + budget.GetOr(0) && (s.forced ==> s.burst == s.now))
         && (s.phase.Listening? ==> s.deadline.Some? && s.lastDraw <= s.lastTick)
  }

  lemma TickingKept(s: State, budget: Option<nat>, interval: nat, d: nat, step: Step)
    requires Inv(s, budget) && InTime(s, budget) && Ticking(s, budget, interval, d)
    requires Enabled(s, step) && Prompt(s, step) && Asks(s, step, interval, d)
    ensures Ticking(Next(s, budget, step), budget, interval, d)
  {}

  /** The loop starts in order. */
  lemma StartReady(budget: Option<nat>, interval: nat, d: nat)
    ensures Inv(START, budget) && InTime(START, budget) && Late(START) && Ticking(START, budget, interval, d)
  {}

  lemma {:induction false} TickingHolds(s: State, budget: Option<nat>, interval: nat, d: nat, steps: seq<Step>)
    requires Inv(s, budget) && InTime(s, budget) && Ticking(s, budget, interval, d)
    requires Possible(s, budget, steps) && AllPrompt(s, budget, steps) && AllAsk(s, budget, steps, interval, d)
    ensures var e := Run(s, budget, steps);
      Inv(e, budget) && InTime(e, budget) && Ticking(e, budget, interval, d)
    decreases |steps|
  {
    if steps != [] {
      InvKept(s, budget, steps[0]);
      InTimeKept(s, budget, steps[0]);
      TickingKept(s, budget, interval, d, steps[0]);
      TickingHolds(Next(s, budget, steps[0]), budget, interval, d, steps[1..]);
    }
  }

  /** So no moment of such a run is further from the last tick than a budget, an interval, and
      two bursts of draws, the one that arms the countdown and the one it falls due in:
      however often other wakes redraw, the countdown cannot starve. */
  lemma PeakNeverStarves(budget: Option<nat>, interval: nat, d: nat, steps: seq<Step>)
    requires Possible(START, budget, steps) && AllPrompt(START, budget, steps) && AllFair(START, budget, steps)
    requires AllAsk(START, budget, steps, interval, d)
    ensures var e := Run(START, budget, steps); e.now <= e.lastTick + budget.GetOr(0) + interval + 2 * d
  {
    StartReady(budget, interval, d);
    TickingHolds(START, budget, interval, d, steps);
    LateHolds(START, budget, steps);
  }

  /** Nor are two ticks in a row. */
  lemma TicksTogether(budget: Option<nat>, interval: nat, d: nat, steps: seq<Step>, at: Time)
    requires Possible(START, budget, steps) && AllPrompt(START, budget, steps) && AllFair(START, budget, steps)
    requires AllAsk(START, budget, steps, interval, d)
    requires var s := Run(START, budget, steps); Enabled(s, PeakTimer(at)) && Prompt(s, PeakTimer(at))
    ensures at <= Run(START, budget, steps).lastTick + budget.GetOr(0) + interval + 2 * d
    ensures Run(START, budget, steps + [PeakTimer(at)]).lastTick == at
  {
    StartReady(budget, interval, d);
    TickingHolds(START, budget, interval, d, steps);
    TickOnTime(budget, steps, at);
    RunSnoc(START, budget, steps, PeakTimer(at));
  }

  lemma {:induction false} RunSnoc(s: State, budget: Option<nat>, steps: seq<Step>, step: Step)
    ensures Run(s, budget, steps + [step]) == Next(Run(s, budget, steps), budget, step)
    decreases |steps|
  {
    if steps == [] {
      assert steps + [step] == [step];
    } else {
      RunSnoc(Next(s, budget, steps[0]), budget, steps[1..], step);
      assert (steps + [step])[1..] == steps[1..] + [step];
    }
  }

  // A countdown that starves ------------------------------------------------------------------------

  /** n redraws after time t, d apart: each time something changes, is drawn at once, and the
      draw takes `took`. */
  function Redraws(d: nat, took: nat, interval: nat, t: Time, n: nat): (steps: seq<Step>)
    ensures forall i :: 0 <= i < |steps| ==> !steps[i].PeakTimer?
    decreases n
  {
    if n == 0 then []
    else
      [Event(t + d, true), Draw(t + d, t + d + took, false, Some(interval))]
      + Redraws(d, took, interval, t + d + took, n - 1)
  }

  /** Right after a draw at time t that armed the countdown. */
  ghost predicate Drawn(s: State, t: Time, peak: Time) {
    s.phase.Listening? && s.now == t && s.lastDraw == t && s.deadline == None && s.dirty == None && s.peak == Some(peak)
  }

  /** Deriving the deadline anew at every draw would starve the countdown: with redraws that
      keep to the budget but come faster than the interval, there is for every n a prompt run
      of n redraws without a tick, and the countdown is due only after the last of them. */
  lemma {:induction false} RederivingStarves(
    s: State, budget: Option<nat>, d: nat, interval: nat, t: Time, n: nat)
    requires budget.GetOr(0) <= d < interval && Drawn(s, t, t + interval)
    ensures var steps := Redraws(d, 0, interval, t, n);
      && Possible(s, budget, steps, false) && AllPrompt(s, budget, steps, false)
      && Drawn(Run(s, budget, steps, false), t + n * d, t + n * d + interval)
    decreases n
  {
    if n > 0 {
      var steps, rest := Redraws(d, 0, interval, t, n), Redraws(d, 0, interval, t + d, n - 1);
      var s1 := Next(s, budget, steps[0], false);
      var s2 := Next(s1, budget, steps[1], false);
      assert steps[1..] == [steps[1]] + rest && steps[1..][1..] == rest;
      RederivingStarves(s2, budget, d, interval, t + d, n - 1);
      assert n * d == (n - 1) * d + d;
    }
  }

  /** A run of the loop's own machine without a tick, however it redraws, is over within a
      budget, an interval and two bursts. */
  lemma KeptTicks(budget: Option<nat>, interval: nat, d: nat, steps: seq<Step>)
    requires Possible(START, budget, steps) && AllPrompt(START, budget, steps) && AllFair(START, budget, steps)
    requires AllAsk(START, budget, steps, interval, d)
    requires forall i :: 0 <= i < |steps| ==> !steps[i].PeakTimer?
    ensures Run(START, budget, steps).now <= budget.GetOr(0) + interval + 2 * d
  {
    PeakNeverStarves(budget, interval, d, steps);
    LastTickStays(START, budget, steps);
  }

  lemma {:induction false} LastTickStays(s: State, budget: Option<nat>, steps: seq<Step>)
    requires forall i :: 0 <= i < |steps| ==> !steps[i].PeakTimer?
    ensures Run(s, budget, steps).lastTick == s.lastTick
    decreases |steps|
  {
    if steps != [] {
      LastTickStays(Next(s, budget, steps[0]), budget, steps[1..]);
    }
  }

  /** Without a cap on the frame rate the ties matter: if events come at once after each draw
      and are always taken first, draws that take a unit of time each make, for every n, a
      prompt run of the loop's own machine that lasts n and never ticks. */
  lemma UncappedStarves(interval: nat, n: nat) returns (steps: seq<Step>)
    ensures Possible(START, None, steps) && AllPrompt(START, None, steps) && AllAsk(START, None, steps, interval, 1)
    ensures forall i :: 0 <= i < |steps| ==> !steps[i].PeakTimer?
    ensures var e := Run(START, None, steps); e.now == n && e.lastTick == 0
  {
    var first, rest := Draw(0, 0, false, Some(interval)), Redraws(0, 1, interval, 0, n);
    steps := [first] + rest;
    assert steps[1..] == rest;
    BusyDraws(Next(START, None, first), interval, 0, n);
    LastTickStays(START, None, steps);
  }

  lemma {:induction false} BusyDraws(s: State, interval: nat, t: Time, n: nat)
    requires s.phase.Listening? && s.now == t && s.deadline == None && s.peak.Some?
    ensures var steps := Redraws(0, 1, interval, t, n);
      && Possible(s, None, steps) && AllPrompt(s, None, steps) && AllAsk(s, None, steps, interval, 1)
      && Run(s, None, steps).now == t + n
    decreases n
  {
    if n > 0 {
      var steps, rest := Redraws(0, 1, interval, t, n), Redraws(0, 1, interval, t + 1, n - 1);
      var s1 := Next(s, None, steps[0]);
      assert steps[1..] == [steps[1]] + rest && steps[1..][1..] == rest;
      BusyDraws(Next(s1, None, steps[1]), interval, t + 1, n - 1);
    }
  }

  // The loop's own variables -----------------------------------------------------------------------

  class FrameClock {
    const budget: Option<nat>
    var drawing: bool
    var lastDraw: Time
    var frameDeadline: Option<Time>
    var peakWake: Option<Time>

    /** The machine's state agrees with the loop's variables. */
    ghost predicate Is(s: State)
      reads this
    {
      && (drawing <==> s.phase.Drawing?)
      && lastDraw == s.lastDraw && frameDeadline == s.deadline && peakWake == s.peak
    }

    constructor (budget: Option<nat>)
      ensures Is(START) && this.budget == budget
    {
      this.budget := budget;
      drawing, lastDraw, frameDeadline, peakWake := true, 0, None, None;
    }

    method DrawFrame(ghost s: State, ghost start: Time, done: Time, media: bool, interval: Option<nat>)
      returns (ghost s': State)
      requires Is(s) && Enabled(s, Draw(start, done, media, interval))
      modifies this
      ensures s' == Next(s, budget, Draw(start, done, media, interval)) && Is(s')
    {
      lastDraw := done;
      peakWake := ArmPeakWake(done, interval, peakWake);
      drawing := media;
      s' := Next(s, budget, Draw(start, done, media, interval));
    }

    /** The four kinds of wake-up of the listening loop. */
    method Wake(ghost s: State, step: Step) returns (ghost s': State)
      requires Is(s) && !step.Draw? && Enabled(s, step)
      modifies this
      ensures s' == Next(s, budget, step) && Is(s')
    {
      s' := Next(s, budget, step);
      var changed := true;
      if step.FrameTimer? {
        frameDeadline := None;
        drawing := true;
        return;
      } else if step.PeakTimer? {
        peakWake := None;
      } else {
        changed := step.changed;
      }
      if !changed {
        return;
      }
      match budget {
        case None =>
          frameDeadline := None;
          drawing := true;
        case Some(b) =>
          if step.at >= lastDraw + b {
            frameDeadline := None;
            drawing := true;
          } else {
            frameDeadline := Some(lastDraw + b);
          }
      }
    }
  }
}
