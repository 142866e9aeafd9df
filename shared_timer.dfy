/**
 * The shared per-room `timerState` (server.js:45-50) and the three transitions
 * the timer handlers apply to it (server.js:169-172, 188, 200-203).
 */
module SharedTimer {
  import opened Wrappers

  /** Default phase lengths in seconds: 30 minutes of work, 5 minutes of break. */
  const WORK_SECONDS: int := 30 * 60
  const BREAK_SECONDS: int := 5 * 60

  /**
   * One room's countdown. `timeRemaining` is whatever the driving client last
   * reported, so the server keeps no bound on it.
   */
  datatype TimerState = TimerState(isRunning: bool, isWorkSession: bool, timeRemaining: int, totalTime: int)

  /** What a tick report is broadcast as. */
  datatype TickOutcome = Finished | Update

  /** The timer of a freshly constructed room. */
  const INITIAL_TIMER: TimerState := TimerState(false, true, WORK_SECONDS, WORK_SECONDS)

  /** The phase a start asks for: the given one, and work when none is given. */
  function Phase(isWorkSession: Option<bool>): (work: bool)
    ensures isWorkSession.None? ==> work
    ensures isWorkSession.Some? ==> work == isWorkSession.value
  {
    if isWorkSession.Some? then isWorkSession.value else true
  }

  /**
   * The phase length a start asks for: the given duration unless it is missing
   * or zero (both falsy), and otherwise the default length of the phase.
   */
  function Duration(duration: Option<int>, isWork: bool): (total: int)
    ensures total != 0
    ensures duration.Some? && duration.value != 0 ==> total == duration.value
    ensures duration.None? || duration.value == 0 ==> total == if isWork then 1800 else 300
  {
    if duration.Some? && duration.value != 0 then duration.value
    else if isWork then WORK_SECONDS else BREAK_SECONDS
  }

  /** timer:start overwrites every field, so the new timer depends on the payload alone. */
  function Started(duration: Option<int>, isWorkSession: Option<bool>): (t: TimerState)
    ensures t.isRunning && t.timeRemaining == t.totalTime != 0
    ensures t.isWorkSession == Phase(isWorkSession) && t.totalTime == Duration(duration, t.isWorkSession)
  {
    var isWork := Phase(isWorkSession);
    var total := Duration(duration, isWork);
    TimerState(true, isWork, total, total)
  }

  /** Pausing stops the timer and changes no other field. */
  function Paused(t: TimerState): (p: TimerState)
    ensures !p.isRunning && p.(isRunning := t.isRunning) == t
  {
    t.(isRunning := false)
  }

  /** timer:tick: store the reported value, stop at or below zero. */
  function Ticked(t: TimerState, reported: int): (r: (TimerState, TickOutcome))
    ensures r.0.timeRemaining == reported
    ensures r.0.totalTime == t.totalTime && r.0.isWorkSession == t.isWorkSession
    ensures r.1 == Finished <==> reported <= 0
    ensures r.0.isRunning == (t.isRunning && reported > 0)
  {
    var t' := t.(timeRemaining := reported);
    if reported <= 0 then (t'.(isRunning := false), Finished) else (t', Update)
  }

  /** A newly created room's timer is stopped, in a work phase, with 1800 s of 1800 s left. */
  lemma InitialTimerFacts()
    ensures !INITIAL_TIMER.isRunning && INITIAL_TIMER.isWorkSession
    ensures INITIAL_TIMER.timeRemaining == INITIAL_TIMER.totalTime == 1800
  {
  }

  /** No sequence of tick reports turns a stopped timer back on. */
  lemma {:induction false} TicksNeverResume(t: TimerState, reports: seq<int>)
    requires !t.isRunning
    ensures !AfterTicks(t, reports).isRunning
    decreases |reports|
  {
    if reports != [] {
      TicksNeverResume(Ticked(t, reports[0]).0, reports[1..]);
    }
  }

  /**
   * The timer after a series of tick reports: the last report is the remaining
   * time, phase and total are those before, and it runs only if it ran before
   * and no report was at or below zero.
   */
  function AfterTicks(t: TimerState, reports: seq<int>): (a: TimerState)
    ensures a.totalTime == t.totalTime && a.isWorkSession == t.isWorkSession
    ensures reports != [] ==> a.timeRemaining == reports[|reports| - 1]
    ensures a.isRunning <==> t.isRunning && forall i :: 0 <= i < |reports| ==> reports[i] > 0
    decreases |reports|
  {
    if reports == [] then t else AfterTicks(Ticked(t, reports[0]).0, reports[1..])
  }

  /**
   * timer:start followed by a tick reporting one second less than the phase
   * length is an `Update` with that remaining time and the timer still running.
   */
  lemma StartThenTick(duration: Option<int>, isWorkSession: Option<bool>)
    requires Started(duration, isWorkSession).totalTime > 1
    ensures var t := Started(duration, isWorkSession);
      Ticked(t, t.totalTime - 1) == (t.(timeRemaining := t.totalTime - 1), Update)
  {
  }

  /**
   * A start with a phase length of 1 second or less (a duration of 1, or a
   * negative one) is finished by the report of one second less: the server
   * does not reject such durations.
   */
  lemma ShortStartFinishes(duration: Option<int>, isWorkSession: Option<bool>)
    requires Started(duration, isWorkSession).totalTime <= 1
    ensures var t := Started(duration, isWorkSession);
      Ticked(t, t.totalTime - 1).1 == Finished && !Ticked(t, t.totalTime - 1).0.isRunning
    ensures Ticked(Started(Some(1), None), 0).1 == Finished
    ensures Ticked(Started(Some(-10), Some(false)), -11).1 == Finished
  {
  }

  /** A tick reporting zero finishes, and a further tick without a new start does not resume. */
  lemma FinishIsFinal(t: TimerState, next: int)
    ensures Ticked(t, 0).1 == Finished && !Ticked(t, 0).0.isRunning
    ensures !Ticked(Ticked(t, 0).0, next).0.isRunning
  {
  }

  /**
   * The server does not clamp reports: a running full timer can be driven
   * below zero or above its total by one tick.
   */
  lemma TickIsUnclamped()
    ensures Ticked(Started(None, None), -5).0.timeRemaining < 0
    ensures Ticked(Started(None, None), 4000).0.timeRemaining > Started(None, None).totalTime
  {
  }

  /** When the reports stay within [0, total], so does the remaining time. */
  lemma {:induction false} TicksWithinBounds(t: TimerState, reports: seq<int>)
    requires 0 <= t.timeRemaining <= t.totalTime
    requires forall i :: 0 <= i < |reports| ==> 0 <= reports[i] <= t.totalTime
    ensures var t' := AfterTicks(t, reports);
      0 <= t'.timeRemaining <= t'.totalTime == t.totalTime
    decreases |reports|
  {
    if reports != [] {
      var t1 := Ticked(t, reports[0]).0;
      assert forall i :: 0 <= i < |reports[1..]| ==> reports[1..][i] == reports[i + 1];
      TicksWithinBounds(t1, reports[1..]);
    }
  }
}
