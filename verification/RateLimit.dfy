/** The fixed-window limiter: the decision (`src/ratelimit.ts`) and the object that stores the
    window (`src/ratelimiter.ts`). Times are whole milliseconds. */
module RateLimit {
  import opened Strings

  datatype Window = Window(windowStartMs: int, count: nat)
  datatype Decision = Decision(allowed: bool, next: Window, retryAfterSeconds: int)

  /** `Math.ceil(ms / 1000)`. */
  function CeilSeconds(ms: int): int {
    -((-ms) / 1000)
  }

  predicate IsLive(prev: Option<Window>, nowMs: int, windowMs: int) {
    prev.Some? && nowMs - prev.value.windowStartMs < windowMs
  }

  function DecideFixedWindow(prev: Option<Window>, nowMs: int, limit: int, windowMs: int): Decision {
    var window := if IsLive(prev, nowMs, windowMs) then prev.value else Window(nowMs, 0);
    if window.count >= limit then
      var wait := CeilSeconds(window.windowStartMs + windowMs - nowMs);
      Decision(false, window, if wait < 1 then 1 else wait)
    else
      Decision(true, Window(window.windowStartMs, window.count + 1), 0)
  }

  class RateLimiter {
    var window: Option<Window>

    constructor ()
      ensures window == None
    {
      window := None;
    }

    method TakeWithWindow(nowMs: int, limit: int, windowMs: int) returns (allowed: bool, retryAfterSeconds: int)
      modifies this
      ensures window == Some(DecideFixedWindow(old(window), nowMs, limit, windowMs).next)
      ensures allowed == DecideFixedWindow(old(window), nowMs, limit, windowMs).allowed
      ensures retryAfterSeconds == DecideFixedWindow(old(window), nowMs, limit, windowMs).retryAfterSeconds
      ensures !allowed && IsLive(old(window), nowMs, windowMs) ==> window == old(window)
    {
      var prev := window;
      var decision := DecideFixedWindow(prev, nowMs, limit, windowMs);
      if Some(decision.next) != prev {
        window := Some(decision.next);
      }
      return decision.allowed, decision.retryAfterSeconds;
    }

    /** Every request of a run, one after the other. */
    method Serve(times: seq<int>, limit: int, windowMs: int) returns (allowed: seq<bool>)
      modifies this
      ensures allowed == Answers(old(window), times, limit, windowMs)
    {
      allowed := [];
      for i := 0 to |times|
        invariant |allowed| == i && allowed == Answers(old(window), times, limit, windowMs)[..i]
        invariant Answers(window, times[i..], limit, windowMs) == Answers(old(window), times, limit, windowMs)[i..]
      {
        assert times[i..][1..] == times[i + 1..];
        ghost var all := Answers(old(window), times, limit, windowMs);
        var ok, retry := TakeWithWindow(times[i], limit, windowMs);
        assert all[i..][0] == ok && all[i..][1..] == all[i + 1..];
        allowed := allowed + [ok];
      }
    }
  }

  /** The answers to a run of requests. */
  function Answers(state: Option<Window>, times: seq<int>, limit: int, windowMs: int): (r: seq<bool>)
    ensures |r| == |times|
    decreases times
  {
    if times == [] then []
    else
      var d := DecideFixedWindow(state, times[0], limit, windowMs);
      [d.allowed] + Answers(Some(d.next), times[1..], limit, windowMs)
  }

  /** How many requests at `times` were allowed in the half-open span from `from` to `to`. */
  function AllowedIn(times: seq<int>, answers: seq<bool>, from: int, to: int): nat
    requires |times| == |answers|
  {
    if times == [] then 0
    else (if answers[0] && from <= times[0] < to then 1 else 0) + AllowedIn(times[1..], answers[1..], from, to)
  }

  /** A clock that never goes back, from `since` on. */
  predicate NonDecreasing(times: seq<int>, since: int)
    decreases times
  {
    times == [] || (since <= times[0] && NonDecreasing(times[1..], times[0]))
  }

  lemma AnswersStep(state: Option<Window>, times: seq<int>, limit: int, windowMs: int)
    requires times != []
    ensures var d := DecideFixedWindow(state, times[0], limit, windowMs);
            var answers := Answers(state, times, limit, windowMs);
            answers[0] == d.allowed && answers[1..] == Answers(Some(d.next), times[1..], limit, windowMs)
  {
  }

  lemma {:induction false} NoneAfter(times: seq<int>, answers: seq<bool>, from: int, to: int)
    requires |times| == |answers| && NonDecreasing(times, to)
    ensures AllowedIn(times, answers, from, to) == 0
    decreases times
  {
    if times != [] {
      LaterToo(times[1..], times[0], to);
      NoneAfter(times[1..], answers[1..], from, to);
    }
  }

  lemma LaterToo(times: seq<int>, since: int, earlier: int)
    requires NonDecreasing(times, since) && earlier <= since
    ensures NonDecreasing(times, earlier)
  {
  }

  /** From a window with `count` used, at most `k` more windows can open before `to`. */
  lemma {:induction false} FromWindow(w: Window, times: seq<int>, limit: int, windowMs: int, from: int, to: int, k: nat)
    requires limit >= 1 && windowMs > 0 && w.count <= limit
    requires NonDecreasing(times, w.windowStartMs) && to <= w.windowStartMs + (k + 1) * windowMs
    ensures AllowedIn(times, Answers(Some(w), times, limit, windowMs), from, to) <= limit - w.count + k * limit
    decreases times
  {
    assert k * limit >= 0;
    if times != [] {
      var t := times[0];
      var d := DecideFixedWindow(Some(w), t, limit, windowMs);
      AnswersStep(Some(w), times, limit, windowMs);
      if IsLive(Some(w), t, windowMs) {
        LaterToo(times[1..], t, w.windowStartMs);
        FromWindow(d.next, times[1..], limit, windowMs, from, to, k);
      } else if k == 0 {
        LaterToo(times, t, to);
        NoneAfter(times, Answers(Some(w), times, limit, windowMs), from, to);
      } else {
        assert (k + 1) * windowMs == windowMs + k * windowMs;
        assert (k - 1) * limit + limit == k * limit;
        FromWindow(d.next, times[1..], limit, windowMs, from, to, k - 1);
      }
    }
  }

  /** What holds of a stored window once the clock has reached `since`. */
  predicate Reachable(state: Option<Window>, since: int, limit: int) {
    state.Some? ==> state.value.windowStartMs <= since && state.value.count <= limit
  }

  /** A span of `m` windows, wherever it starts, allows at most `m + 1` times the limit. */
  lemma {:induction false} SpanBound(
    state: Option<Window>, times: seq<int>, since: int, limit: int, windowMs: int, from: int, m: nat)
    requires limit >= 1 && windowMs > 0 && NonDecreasing(times, since) && Reachable(state, since, limit)
    ensures AllowedIn(times, Answers(state, times, limit, windowMs), from, from + m * windowMs) <= (m + 1) * limit
    decreases times
  {
    assert (m + 1) * limit == m * limit + limit >= 0;
    assert (m + 1) * windowMs == m * windowMs + windowMs;
    if times != [] {
      var t, to := times[0], from + m * windowMs;
      var d := DecideFixedWindow(state, t, limit, windowMs);
      AnswersStep(state, times, limit, windowMs);
      if t < from {
        SpanBound(Some(d.next), times[1..], t, limit, windowMs, from, m);
      } else if IsLive(state, t, windowMs) {
        LaterToo(times, since, state.value.windowStartMs);
        FromWindow(state.value, times, limit, windowMs, from, to, m);
      } else {
        FromWindow(d.next, times[1..], limit, windowMs, from, to, m);
      }
    }
  }

  /** For any run of requests with a clock that never goes back. */
  lemma FixedWindowBound(times: seq<int>, limit: int, windowMs: int, from: int, m: nat)
    requires limit >= 1 && windowMs > 0 && times != [] && NonDecreasing(times, times[0])
    ensures AllowedIn(times, Answers(None, times, limit, windowMs), from, from + m * windowMs) <= (m + 1) * limit
  {
    SpanBound(None, times, times[0], limit, windowMs, from, m);
  }

  /** A request is denied exactly in a live window that is full, and a denial leaves the window as it was. */
  lemma DeniedLeavesState(prev: Option<Window>, nowMs: int, limit: int, windowMs: int)
    requires limit >= 1 && windowMs > 0
    ensures var d := DecideFixedWindow(prev, nowMs, limit, windowMs);
            !d.allowed <==> IsLive(prev, nowMs, windowMs) && prev.value.count >= limit
    ensures var d := DecideFixedWindow(prev, nowMs, limit, windowMs);
            !d.allowed ==> Some(d.next) == prev
  {
  }

  /** `retryAfterSeconds` of a denial is the least positive whole number of seconds after which,
      if no other request arrives, one is allowed. */
  lemma RetryAfterIsLeast(prev: Option<Window>, nowMs: int, limit: int, windowMs: int)
    requires limit >= 1 && windowMs > 0
    requires !DecideFixedWindow(prev, nowMs, limit, windowMs).allowed
    ensures var d := DecideFixedWindow(prev, nowMs, limit, windowMs);
            && d.retryAfterSeconds >= 1
            && DecideFixedWindow(Some(d.next), nowMs + 1000 * d.retryAfterSeconds, limit, windowMs).allowed
            && forall s :: 1 <= s < d.retryAfterSeconds ==>
                 !DecideFixedWindow(Some(d.next), nowMs + 1000 * s, limit, windowMs).allowed
  {
    DeniedLeavesState(prev, nowMs, limit, windowMs);
    var left := prev.value.windowStartMs + windowMs - nowMs;
    assert 1000 * (CeilSeconds(left) - 1) < left <= 1000 * CeilSeconds(left);
  }
}
