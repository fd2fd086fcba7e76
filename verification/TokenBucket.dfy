/** The per-key token bucket that limits request rates, over real-valued time. */
module TokenBucket {
  datatype State = State(tokens: real, last: real)

  /** Rate in tokens per second and burst limit; the caller makes both positive. */
  datatype Limits = Limits(rate: real, capacity: real)

  ghost predicate Valid(l: Limits, s: State) {
    l.rate > 0.0 && l.capacity > 0.0 && 0.0 <= s.tokens <= l.capacity
  }

  class Bucket {
    const limits: Limits
    var state: State

    ghost predicate Ok()
      reads this
    {
      Valid(limits, state)
    }

    constructor (limits: Limits, now: real)
      requires limits.rate > 0.0 && limits.capacity > 0.0
      ensures this.limits == limits && state == State(limits.capacity, now) && Ok()
    {
      this.limits := limits;
      state := State(limits.capacity, now);
    }

    /** Refills for the time passed, then takes a token if there is a whole one. */
    method Consume(now: real) returns (admitted: bool)
      requires Ok()
      modifies this
      ensures Ok()
      ensures (state, admitted) == Take(limits, old(state), now)
    {
      var elapsed := now - state.last;
      if elapsed > 0.0 {
        var tokens := state.tokens + elapsed * limits.rate;
        EarnedIsPositive(limits, state.last, now);
        if tokens > limits.capacity {
          tokens := limits.capacity;
        }
        state := State(tokens, now);
      }
      assert state == Refill(limits, old(state), now);
      if state.tokens < 1.0 {
        return false;
      }
      state := state.(tokens := state.tokens - 1.0);
      return true;
    }
  }

  /** What a stretch of time brings in. */
  function Earned(l: Limits, from: real, to: real): real {
    (to - from) * l.rate
  }

  function Refill(l: Limits, s: State, now: real): State {
    if now - s.last > 0.0 then
      var tokens := s.tokens + Earned(l, s.last, now);
      State(if tokens > l.capacity then l.capacity else tokens, now)
    else s
  }

  function Take(l: Limits, s: State, now: real): (State, bool) {
    var r := Refill(l, s, now);
    if r.tokens < 1.0 then (r, false) else (r.(tokens := r.tokens - 1.0), true)
  }

  function After(l: Limits, s: State, times: seq<real>): State
    decreases |times|
  {
    if times == [] then s else After(l, Take(l, s, times[0]).0, times[1..])
  }

  /** How many of the calls at these times are admitted. */
  function Admitted(l: Limits, s: State, times: seq<real>): nat
    decreases |times|
  {
    if times == [] then 0
    else
      var (next, ok) := Take(l, s, times[0]);
      (if ok then 1 else 0) + Admitted(l, next, times[1..])
  }

  ghost predicate NonDecreasing(times: seq<real>) {
    forall i, j | 0 <= i <= j < |times| :: times[i] <= times[j]
  }

  lemma EarnedIsPositive(l: Limits, from: real, to: real)
    requires from <= to && l.rate > 0.0
    ensures Earned(l, from, to) >= 0.0
  {
  }

  lemma EarnedAdds(l: Limits, a: real, b: real, c: real)
    ensures Earned(l, a, b) + Earned(l, b, c) == Earned(l, a, c)
  {
  }

  /** One call spends at most what was there plus what time has brought in. */
  lemma TakeBounds(l: Limits, s: State, now: real)
    requires Valid(l, s) && s.last <= now
    ensures var (next, ok) := Take(l, s, now);
            && Valid(l, next) && next.last == now
            && (if ok then 1.0 else 0.0) + next.tokens <= s.tokens + Earned(l, s.last, now)
  {
    EarnedIsPositive(l, s.last, now);
  }

  lemma {:induction false} AdmittedBounds(l: Limits, s: State, times: seq<real>)
    requires Valid(l, s) && times != [] && NonDecreasing(times) && s.last <= times[0]
    ensures Admitted(l, s, times) as real <= s.tokens + Earned(l, s.last, times[|times| - 1])
    decreases |times|
  {
    var (next, ok) := Take(l, s, times[0]);
    TakeBounds(l, s, times[0]);
    var rest := times[1..];
    if rest != [] {
      assert rest[0] == times[1] && rest[|rest| - 1] == times[|times| - 1];
      AdmittedBounds(l, next, rest);
      EarnedAdds(l, s.last, times[0], times[|times| - 1]);
    }
  }

  lemma {:induction false} StaysValid(l: Limits, s: State, times: seq<real>)
    requires Valid(l, s)
    ensures Valid(l, After(l, s, times))
    decreases |times|
  {
    if times != [] {
      if times[0] - s.last > 0.0 {
        EarnedIsPositive(l, s.last, times[0]);
      }
      StaysValid(l, Take(l, s, times[0]).0, times[1..]);
    }
  }

  lemma {:induction false} LastCall(l: Limits, s: State, times: seq<real>)
    requires NonDecreasing(times) && (times != [] ==> s.last <= times[0])
    ensures After(l, s, times).last == if times == [] then s.last else times[|times| - 1]
    decreases |times|
  {
    if |times| > 0 {
      var rest := times[1..];
      assert rest != [] ==> rest[0] == times[1] && rest[|rest| - 1] == times[|times| - 1];
      LastCall(l, Take(l, s, times[0]).0, rest);
    }
  }

  /** Refilling at the first call's own time changes nothing. */
  lemma RefillFirst(l: Limits, s: State, times: seq<real>)
    requires times != [] && s.last <= times[0]
    ensures Admitted(l, s, times) == Admitted(l, Refill(l, s, times[0]), times)
    ensures Refill(l, s, times[0]).last == times[0]
  {
  }

  lemma RefillKeepsValid(l: Limits, s: State, now: real)
    requires Valid(l, s)
    ensures Valid(l, Refill(l, s, now))
  {
    if now - s.last > 0.0 {
      EarnedIsPositive(l, s.last, now);
    }
  }

  /** From any state, the calls admitted in a window are at most the burst limit plus the rate
      times the length of the window. */
  lemma WindowBoundFrom(l: Limits, s: State, window: seq<real>)
    requires Valid(l, s) && window != [] && NonDecreasing(window) && s.last <= window[0]
    ensures Admitted(l, s, window) as real <= l.capacity + Earned(l, window[0], window[|window| - 1])
  {
    RefillKeepsValid(l, s, window[0]);
    RefillFirst(l, s, window);
    AdmittedBounds(l, Refill(l, s, window[0]), window);
  }

  /** The same for any window of the calls made to a bucket since it was created full. */
  lemma WindowBound(l: Limits, start: real, before: seq<real>, window: seq<real>)
    requires l.rate > 0.0 && l.capacity > 0.0
    requires window != [] && NonDecreasing([start] + before + window)
    ensures var s := After(l, State(l.capacity, start), before);
            Admitted(l, s, window) as real <= l.capacity + Earned(l, window[0], window[|window| - 1])
  {
    var s0 := State(l.capacity, start);
    SubRange(start, before, window);
    StaysValid(l, s0, before);
    LastCall(l, s0, before);
    WindowBoundFrom(l, After(l, s0, before), window);
  }

  lemma SubRange(start: real, before: seq<real>, window: seq<real>)
    requires window != [] && NonDecreasing([start] + before + window)
    ensures NonDecreasing(before) && NonDecreasing(window)
    ensures before != [] ==> start <= before[0]
    ensures (if before == [] then start else before[|before| - 1]) <= window[0]
  {
    var all := [start] + before + window;
    assert all[0] == start;
    assert forall i | 0 <= i < |before| :: before[i] == all[i + 1];
    assert forall i | 0 <= i < |window| :: window[i] == all[|before| + 1 + i];
  }

  // ----- Exactly when a call is refused -----

  /** The tokens a call at `now` finds, after the calls before it. */
  function Found(l: Limits, s: State, calls: seq<real>, now: real): real {
    Refill(l, After(l, s, calls), now).tokens
  }

  /** What the limits leave for a call at `now` in the window that starts with the call of number
      `k`, or with the state at hand for -1: tokens to begin with, plus what time brings in,
      minus the calls admitted. */
  function Left(l: Limits, s: State, calls: seq<real>, now: real, k: int): real
    requires -1 <= k <= |calls|
  {
    if k < 0 then s.tokens + Earned(l, s.last, now) - Admitted(l, s, calls) as real
    else l.capacity + Earned(l, (calls + [now])[k], now) - Admitted(l, After(l, s, calls[..k]), calls[k..]) as real
  }

  lemma LeftStep(l: Limits, s: State, calls: seq<real>, now: real, k: int)
    requires calls != [] && 1 <= k <= |calls|
    ensures Left(l, s, calls, now, k) == Left(l, Take(l, s, calls[0]).0, calls[1..], now, k - 1)
  {
    assert calls[..k][1..] == calls[1..][..k - 1] && calls[..k][0] == calls[0];
    assert calls[k..] == calls[1..][k - 1..];
    assert (calls + [now])[k] == (calls[1..] + [now])[k - 1];
  }

  /** The first call leaves the smaller of what the state and the capacity allow. */
  lemma LeftAfterFirst(l: Limits, s: State, calls: seq<real>, now: real)
    requires Valid(l, s) && calls != [] && s.last <= calls[0] <= now
    ensures var left := Left(l, Take(l, s, calls[0]).0, calls[1..], now, -1);
            && left <= Left(l, s, calls, now, -1) && left <= Left(l, s, calls, now, 0)
            && (left == Left(l, s, calls, now, -1) || left == Left(l, s, calls, now, 0))
  {
    var next := Take(l, s, calls[0]).0;
    EarnedAdds(l, s.last, calls[0], now);
    EarnedIsPositive(l, s.last, calls[0]);
    assert next.last == calls[0];
    assert calls[..0] == [] && calls[0..] == calls && (calls + [now])[0] == calls[0];
    assert Earned(l, calls[0], calls[0]) == 0.0;
  }

  /** A call finds the least of what its windows leave. */
  lemma {:induction false} FoundIsLeast(l: Limits, s: State, calls: seq<real>, now: real) returns (k: int)
    requires Valid(l, s) && NonDecreasing([s.last] + calls + [now])
    ensures -1 <= k <= |calls| && Found(l, s, calls, now) == Left(l, s, calls, now, k)
    ensures forall j | -1 <= j <= |calls| :: Found(l, s, calls, now) <= Left(l, s, calls, now, j)
    decreases |calls|
  {
    SubRange(s.last, calls, [now]);
    if calls == [] {
      EarnedIsPositive(l, s.last, now);
      assert calls[..0] == [] && calls[0..] == [] && (calls + [now])[0] == now;
      assert Earned(l, now, now) == 0.0;
      assert now == s.last ==> Earned(l, s.last, now) == 0.0;
      k := if s.tokens + Earned(l, s.last, now) <= l.capacity then -1 else 0;
    } else {
      var next, rest := Take(l, s, calls[0]).0, calls[1..];
      TakeBounds(l, s, calls[0]);
      RestNonDecreasing(s.last, calls, now);
      var k' := FoundIsLeast(l, next, rest, now);
      LeftAfterFirst(l, s, calls, now);
      if k' >= 0 {
        LeftStep(l, s, calls, now, k' + 1);
      }
      k := if k' >= 0 then k' + 1 else if Left(l, next, rest, now, -1) == Left(l, s, calls, now, 0) then 0 else -1;
      forall j | -1 <= j <= |calls| ensures Found(l, next, rest, now) <= Left(l, s, calls, now, j) {
        if j >= 1 {
          LeftStep(l, s, calls, now, j);
        }
        assert Found(l, next, rest, now) <= Left(l, next, rest, now, if j >= 1 then j - 1 else -1);
      }
    }
  }

  lemma RestNonDecreasing(last: real, calls: seq<real>, now: real)
    requires calls != [] && NonDecreasing([last] + calls + [now])
    ensures NonDecreasing([calls[0]] + calls[1..] + [now]) && last <= calls[0] <= now
  {
    var all := [last] + calls + [now];
    assert [calls[0]] + calls[1..] + [now] == all[1..];
    assert all[0] == last && all[1] == calls[0] && all[|all| - 1] == now;
  }

  /** A bucket created full refuses a call exactly when admitting it would let more calls
      through, in some window that ends with it, than capacity plus rate times length. */
  lemma RefusedIff(l: Limits, start: real, calls: seq<real>, now: real)
    requires l.rate > 0.0 && l.capacity > 0.0 && NonDecreasing([start] + calls + [now])
    ensures var s := State(l.capacity, start);
            !Take(l, After(l, s, calls), now).1 <==>
            exists k | 0 <= k <= |calls| :: Overdraws(l, s, calls, now, k)
  {
    var s := State(l.capacity, start);
    var k := FoundIsLeast(l, s, calls, now);
    StartIsFull(l, s, calls, now);
    RefusedIffFound(l, After(l, s, calls), now);
    if Found(l, s, calls, now) < 1.0 {
      OverdrawsIffLeft(l, s, calls, now, if k < 0 then 0 else k);
    }
    if j :| 0 <= j <= |calls| && Overdraws(l, s, calls, now, j) {
      OverdrawsIffLeft(l, s, calls, now, j);
    }
  }

  /** A call is admitted exactly when it finds a whole token, and takes it. */
  lemma RefusedIffFound(l: Limits, s: State, now: real)
    ensures Take(l, s, now).1 <==> Refill(l, s, now).tokens >= 1.0
    ensures Take(l, s, now).0.tokens == Refill(l, s, now).tokens - (if Take(l, s, now).1 then 1.0 else 0.0)
  {
  }

  lemma OverdrawsIffLeft(l: Limits, s: State, calls: seq<real>, now: real, k: nat)
    requires k <= |calls|
    ensures Overdraws(l, s, calls, now, k) <==> Left(l, s, calls, now, k) < 1.0
  {
  }

  /** One more admitted call would exceed the bound of the window from the call of number `k`. */
  predicate Overdraws(l: Limits, s: State, calls: seq<real>, now: real, k: nat)
    requires k <= |calls|
  {
    Admitted(l, After(l, s, calls[..k]), calls[k..]) as real + 1.0 > l.capacity + Earned(l, (calls + [now])[k], now)
  }

  lemma StartIsFull(l: Limits, s: State, calls: seq<real>, now: real)
    requires l.rate > 0.0 && s.tokens == l.capacity && NonDecreasing([s.last] + calls + [now])
    ensures Left(l, s, calls, now, 0) <= Left(l, s, calls, now, -1)
  {
    var first := (calls + [now])[0];
    var all := [s.last] + calls + [now];
    assert all[0] == s.last && all[1] == first;
    EarnedAdds(l, s.last, first, now);
    EarnedIsPositive(l, s.last, first);
    assert calls[..0] == [] && calls[0..] == calls;
  }
}
