/** The per-user request window behind `check_rate_limit`, as a pure step function.
    The bot's mutable `RATE_LIMIT` dictionary (class `TelegramBot.Bot`) applies one step per call. */
module RateLimiter {
  import opened Wrappers

  /** `RATE_LIMIT_SECONDS` and `MAX_REQUESTS_PER_MINUTE`. */
  const WindowSeconds: real := 60.0
  const MaxRequests: nat := 5

  /** One user's entry of `RATE_LIMIT`: the admitted request timestamps and `last_reset`.
      Timestamps are POSIX seconds as `datetime.now().timestamp()` gives them (a float). */
  datatype Window = Window(requests: seq<real>, lastReset: real)

  /** One call's effect: the user's entry afterwards and the returned `(is_allowed, seconds)`. */
  datatype Decision = Decision(window: Window, allowed: bool, wait: int)

  /** Invariant of every entry: at most `MaxRequests` timestamps, none later than the end of the
      window they were admitted in. */
  ghost predicate WellFormed(w: Window) {
    && |w.requests| <= MaxRequests
    && forall i :: 0 <= i < |w.requests| ==> w.requests[i] <= w.lastReset + WindowSeconds
  }

  /** With a clock that never goes back, every retained timestamp lies in the current window. */
  ghost predicate InWindow(w: Window) {
    forall i :: 0 <= i < |w.requests| ==> w.lastReset <= w.requests[i] <= w.lastReset + WindowSeconds
  }

  /** Python's `int()` on a float: truncation toward zero. */
  function TruncToInt(x: real): (n: int)
    ensures 0.0 <= x ==> 0 <= n && n as real <= x < n as real + 1.0
    ensures x < 0.0 ==> n <= 0 && n as real - 1.0 < x <= n as real
  {
    if x >= 0.0 then x.Floor else -((-x).Floor)
  }

  /** The entry after the lazy insertion (a new user starts with `[]` and `last_reset = now`)
      and the reset step (strictly more than `WindowSeconds` elapsed empties the whole list). */
  function Retained(entry: Option<Window>, now: real): (w: Window)
    ensures entry.Some? && now - entry.value.lastReset <= WindowSeconds ==> w == entry.value
    ensures !(entry.Some? && now - entry.value.lastReset <= WindowSeconds) ==> w == Window([], now)
    ensures now - w.lastReset <= WindowSeconds
  {
    var base := if entry.None? then Window([], now) else entry.value;
    if now - base.lastReset > WindowSeconds then Window([], now) else base
  }

  /** `max(0, int(RATE_LIMIT_SECONDS - (now - last_reset)))`. */
  function SecondsLeft(w: Window, now: real): (s: int)
    ensures 0 <= s
    ensures var x := WindowSeconds - (now - w.lastReset);
      && (x >= 0.0 ==> s as real <= x < s as real + 1.0)
      && (x < 0.0 ==> s == 0)
  {
    var t := TruncToInt(WindowSeconds - (now - w.lastReset));
    if t < 0 then 0 else t
  }

  /** One call of `check_rate_limit(user_id)` at time `now`, given the user's entry before it. */
  function RateStep(entry: Option<Window>, now: real): (d: Decision)
    ensures d.allowed ==> d.wait == 0
    ensures 0 <= d.wait
  {
    var w := Retained(entry, now);
    if |w.requests| >= MaxRequests then Decision(w, false, SecondsLeft(w, now))
    else Decision(Window(w.requests + [now], w.lastReset), true, 0)
  }

  /** A user seen for the first time is admitted, and their entry holds just this request. */
  lemma FirstRequestAdmitted(now: real)
    ensures RateStep(None, now) == Decision(Window([now], now), true, 0)
  {
  }

  /** Once more than `WindowSeconds` have passed since `last_reset`, the window is reset as a
      whole (not timestamp by timestamp) and the request is admitted whatever the old count. */
  lemma FullReset(w: Window, now: real)
    requires now - w.lastReset > WindowSeconds
    ensures RateStep(Some(w), now) == Decision(Window([now], now), true, 0)
  {
  }

  /** Admission appends exactly `now` to the retained requests and keeps `last_reset`. */
  lemma AdmissionAppendsNow(entry: Option<Window>, now: real)
    requires RateStep(entry, now).allowed
    ensures RateStep(entry, now).window
      == Window(Retained(entry, now).requests + [now], Retained(entry, now).lastReset)
    ensures |Retained(entry, now).requests| < MaxRequests
  {
  }

  /** Rejection happens only when the stored list is already full within its window, and then
      the entry is left exactly as it was. */
  lemma RejectionLeavesEntry(entry: Option<Window>, now: real)
    requires !RateStep(entry, now).allowed
    ensures entry.Some?
    ensures now - entry.value.lastReset <= WindowSeconds
    ensures |entry.value.requests| >= MaxRequests
    ensures RateStep(entry, now).window == entry.value
  {
  }

  /** The reported wait is never negative, and with a clock that has not gone back since
      `last_reset` it is at most `WindowSeconds`; truncation makes it 0 throughout the last
      second of the window although the request is still refused. */
  lemma RejectionWaitBounds(w: Window, now: real)
    requires !RateStep(Some(w), now).allowed
    requires w.lastReset <= now
    ensures 0 <= RateStep(Some(w), now).wait <= 60
    ensures RateStep(Some(w), now).wait == 0 <==> now - w.lastReset > WindowSeconds - 1.0
  {
    var x := WindowSeconds - (now - w.lastReset);
    assert 0.0 <= x <= WindowSeconds;
    var n := TruncToInt(x);
    assert n <= 60;
    assert n == 0 <==> x < 1.0 by {
      if n >= 1 { assert n as real >= 1.0; }
    }
  }

  /** Every step keeps the entry invariant, so no user ever has more than `MaxRequests`
      retained timestamps. */
  lemma StepKeepsWellFormed(entry: Option<Window>, now: real)
    requires entry.Some? ==> WellFormed(entry.value)
    ensures WellFormed(RateStep(entry, now).window)
  {
    var w := Retained(entry, now);
    var d := RateStep(entry, now);
    if d.allowed {
      forall i | 0 <= i < |d.window.requests|
        ensures d.window.requests[i] <= d.window.lastReset + WindowSeconds
      {
        if i < |w.requests| { assert d.window.requests[i] == w.requests[i]; }
      }
    }
  }

  /** With a monotone clock, retained timestamps always lie inside the current window. */
  lemma StepKeepsInWindow(entry: Option<Window>, now: real)
    requires entry.Some? ==> InWindow(entry.value) && entry.value.lastReset <= now
    ensures InWindow(RateStep(entry, now).window)
  {
    var w := Retained(entry, now);
    var d := RateStep(entry, now);
    if d.allowed {
      forall i | 0 <= i < |d.window.requests|
        ensures d.window.lastReset <= d.window.requests[i] <= d.window.lastReset + WindowSeconds
      {
        if i < |w.requests| { assert d.window.requests[i] == w.requests[i]; }
      }
    }
  }

  /** The verdicts of successive calls by one user at the given times. */
  function Replay(entry: Option<Window>, times: seq<real>): (verdicts: seq<bool>)
    ensures |verdicts| == |times|
    decreases |times|
  {
    if times == [] then []
    else
      var d := RateStep(entry, times[0]);
      [d.allowed] + Replay(Some(d.window), times[1..])
  }

  /** Within one unexpired window, call i is admitted exactly when the stored count plus i is
      still below `MaxRequests`. */
  lemma {:induction false} BurstFrom(w: Window, times: seq<real>)
    requires |w.requests| <= MaxRequests
    requires forall i :: 0 <= i < |times| ==> times[i] - w.lastReset <= WindowSeconds
    ensures Replay(Some(w), times) == seq(|times|, i => |w.requests| + i < MaxRequests)
    decreases |times|
  {
    if times != [] {
      var d := RateStep(Some(w), times[0]);
      BurstFrom(d.window, times[1..]);
      assert d.allowed ==> |d.window.requests| == |w.requests| + 1;
    }
  }

  /** Within one window that starts with a user's first request, the first `MaxRequests`
      requests are admitted and every later one is refused. */
  lemma BurstWithinOneWindow(times: seq<real>)
    requires |times| > 0
    requires forall i :: 0 <= i < |times| ==> times[i] - times[0] <= WindowSeconds
    ensures Replay(None, times) == seq(|times|, i => i < MaxRequests)
  {
    var d := RateStep(None, times[0]);
    BurstFrom(d.window, times[1..]);
  }
}
