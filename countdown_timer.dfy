/**
 * The client `Timer` class (app.js:6-26). A live `setInterval` handle is
 * modelled as the flag `running`; each firing of the interval is one call of
 * `Tick`.
 */
module CountdownTimer {
  import ClockFormat

  /** The length a Timer gets when none is given. */
  const DEFAULT_SECONDS: int := 1500

  /**
   * The value of a Timer. `notify` records whether the closure of the live
   * interval holds a completion callback, which it calls when it completes.
   */
  datatype Countdown = Countdown(initial: int, remaining: int, running: bool, notify: bool)

  /**
   * start(cb): a stopped timer gets a live interval whose closure holds cb when
   * one is given; a timer that already runs keeps its interval and its callback.
   */
  function Started(c: Countdown, withCallback: bool): (r: Countdown)
    ensures r.running && r.initial == c.initial && r.remaining == c.remaining
    ensures c.running ==> r == c
    ensures !c.running ==> r.notify == withCallback
  {
    if c.running then c else c.(running := true, notify := withCallback)
  }

  /**
   * One firing of the interval and whether it invokes the callback: at or below
   * zero it clears the interval and completes, otherwise it counts one second down.
   */
  function Ticked(c: Countdown): (r: (Countdown, bool))
    ensures r.0.initial == c.initial && r.0.notify == c.notify
    ensures r.0.remaining == if c.remaining > 0 then c.remaining - 1 else c.remaining
    ensures r.0.running == (c.running && c.remaining > 0)
    ensures r.1 <==> c.remaining <= 0 && c.notify
  {
    if c.remaining <= 0 then (c.(running := false), c.notify)
    else (c.(remaining := c.remaining - 1), false)
  }

  /** pause clears the interval and changes nothing else. */
  function Paused(c: Countdown): (r: Countdown)
    ensures !r.running && r.(running := c.running) == c
  {
    c.(running := false)
  }

  /** reset puts the remaining time back to the initial one and changes nothing else. */
  function Rewound(c: Countdown): (r: Countdown)
    ensures r.remaining == r.initial == c.initial
    ensures r.(remaining := c.remaining) == c
  {
    c.(remaining := c.initial)
  }

  /** set makes the value both the initial and the remaining time; a live interval keeps running. */
  function SetTo(c: Countdown, seconds: int): (r: Countdown)
    ensures r.initial == r.remaining == seconds
    ensures r.running == c.running && r.notify == c.notify
  {
    c.(initial := seconds, remaining := seconds)
  }

  /**
   * The timer after the interval has had n chances to fire, and how many times
   * the callback ran; a cleared interval fires no more.
   */
  function Run(c: Countdown, n: nat): (r: (Countdown, nat))
    ensures r.0.initial == c.initial && r.0.notify == c.notify
    ensures r.1 <= 1 && (r.1 == 1 ==> !r.0.running && c.notify)
    ensures !c.running ==> r == (c, 0)
    decreases n
  {
    if n == 0 || !c.running then (c, 0)
    else
      var (c1, done) := Ticked(c);
      var (c2, k) := Run(c1, n - 1);
      (c2, k + if done then 1 else 0)
  }

  /** start is a no-op on a running timer, so there is never a second live interval. */
  lemma StartedWhileRunning(c: Countdown, withCallback: bool)
    requires c.running
    ensures Started(c, withCallback) == c
  {
  }

  /** A tick at a positive time takes exactly one second off and keeps running, without completing. */
  lemma TickedPositive(c: Countdown)
    requires c.running && c.remaining > 0
    ensures Ticked(c) == (c.(remaining := c.remaining - 1), false)
  {
  }

  /** A tick at or below zero stops the timer, keeps the time, and completes if a callback was given. */
  lemma TickedAtZero(c: Countdown)
    requires c.remaining <= 0
    ensures var (c', done) := Ticked(c); !c'.running && c'.remaining == c.remaining && done == c.notify
  {
  }

  /** pause on a stopped timer changes nothing. */
  lemma PausedFacts(c: Countdown)
    ensures !c.running ==> Paused(c) == c
  {
  }

  /** set makes both times the new value; reset then restores that value. */
  lemma SetThenReset(c: Countdown, seconds: int, n: nat)
    ensures SetTo(c, seconds).initial == SetTo(c, seconds).remaining == seconds
    ensures Rewound(Run(SetTo(c, seconds), n).0).remaining == seconds
    ensures Rewound(c).initial == c.initial && Rewound(c).remaining == c.initial
  {
  }

  /**
   * Starting from r >= 0 seconds, a running timer counts down to zero and stays
   * there: after n firings it shows max(r - n, 0), it is still running while
   * n <= r, and the callback has run exactly once (if there is one) once n > r.
   */
  lemma {:induction false} RunDown(c: Countdown, n: nat)
    requires c.running && c.remaining >= 0
    ensures var (c', k) := Run(c, n);
      c'.remaining == (if n <= c.remaining then c.remaining - n else 0) &&
      c'.running == (n <= c.remaining) &&
      k == (if n > c.remaining && c.notify then 1 else 0)
    decreases n
  {
    if n > 0 {
      var (c1, done) := Ticked(c);
      if c.remaining == 0 {
        assert Run(c1, n - 1) == (c1, 0);
      } else {
        RunDown(c1, n - 1);
      }
    }
  }

  /** No operation takes a non-negative remaining time below zero. */
  lemma StaysNonNegative(c: Countdown, withCallback: bool, n: nat)
    requires c.remaining >= 0
    ensures Ticked(c).0.remaining >= 0 && Started(c, withCallback).remaining >= 0
    ensures Paused(c).remaining >= 0 && Run(c, n).0.remaining >= 0
    ensures c.initial >= 0 ==> Rewound(c).remaining >= 0
  {
    if c.running {
      RunDown(c, n);
    }
  }

  class Timer {
    var initial: int
    var remaining: int
    /** An interval is live. */
    var running: bool
    /** The callback captured by the live interval's closure is present. */
    var notify: bool

    function State(): Countdown
      reads this
    {
      Countdown(initial, remaining, running, notify)
    }

    constructor (seconds: int)
      ensures State() == Countdown(seconds, seconds, false, false)
    {
      initial := seconds;
      remaining := seconds;
      running := false;
      notify := false;
    }

    /** A timer built without a length: 1500 seconds, 25 minutes. */
    constructor Default()
      ensures State() == Countdown(DEFAULT_SECONDS, DEFAULT_SECONDS, false, false)
    {
      initial := DEFAULT_SECONDS;
      remaining := DEFAULT_SECONDS;
      running := false;
      notify := false;
    }

    method Start(withCallback: bool)
      modifies this
      ensures State() == Started(old(State()), withCallback)
    {
      if running {
        return;
      }
      notify := withCallback;
      running := true;
    }

    /** One firing of the interval; `completed` is whether it invoked the callback. */
    method Tick() returns (completed: bool)
      requires running
      modifies this
      ensures (State(), completed) == Ticked(old(State()))
    {
      if remaining <= 0 {
        running := false;
        completed := notify;
        return;
      }
      remaining := remaining - 1;
      completed := false;
    }

    method Pause()
      modifies this
      ensures State() == Paused(old(State()))
    {
      if running {
        running := false;
      }
    }

    method Reset()
      modifies this
      ensures State() == Rewound(old(State()))
    {
      remaining := initial;
    }

    method Set(seconds: int)
      modifies this
      ensures State() == SetTo(old(State()), seconds)
    {
      initial := seconds;
      remaining := seconds;
    }

    /** The text updateDisplay shows: for a non-negative time, mm:ss that reads back as that time. */
    function Display(): (d: string)
      reads this
      ensures remaining >= 0 ==> ClockFormat.ReadsBack(d, remaining)
    {
      if remaining >= 0 then
        ClockFormat.DisplayRoundTrip(remaining);
        ClockFormat.Display(remaining)
      else
        ClockFormat.Display(remaining)
    }
  }
}
