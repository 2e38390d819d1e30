/** The egg timer of timer.c, its 64-bit arithmetic, and what pacing by it gives. */
module Timers {
  import opened Bytes

  const TWO_63: nat := 0x8000_0000_0000_0000
  const TWO_64: nat := 0x1_0000_0000_0000_0000
  const LONG_MIN: int := -0x8000_0000_0000_0000
  const NEVER: nat := 0
  const RIGHT_NOW: nat := 0

  /** Clock readings stay far enough below 2^63 to add any duration used here. */
  const CLOCK_LIMIT: nat := TWO_63 - 1_000_000

  /** An unsigned 64-bit value read as a signed one. */
  function AsLong(u: nat): int {
    if u < TWO_63 then u else u - TWO_64
  }

  /** A signed 64-bit value negated; the least one has no counterpart and wraps to itself. */
  function Negated(x: int): int {
    if x == LONG_MIN then x else -x
  }

  function CalcDifference(a: nat, b: nat): int {
    if a >= b then AsLong(a - b) else Negated(AsLong(b - a))
  }

  /** The difference is right exactly when it fits a signed 64-bit value. */
  lemma CalcDifferenceExact(a: nat, b: nat)
    requires a < TWO_64 && b < TWO_64
    ensures CalcDifference(a, b) == a - b <==> LONG_MIN <= a - b < TWO_63
  {
  }

  datatype Timer = Timer(started: nat, ending: nat) {
    predicate Expired(now: nat) {
      ending == NEVER || CalcDifference(ending, now) <= 0
    }

    function Remaining(now: nat): nat {
      if ending != NEVER && CalcDifference(ending, now) > 0 then CalcDifference(ending, now) else 0
    }
  }

  /** A timer that starts at `start`, or now, and runs for a duration, or has no end. */
  function Started(start: nat, duration: nat, now: nat): Timer {
    var started := if start != 0 then start else now;
    Timer(started, if duration != 0 then (started + duration) % TWO_64 else NEVER)
  }

  /** A running timer expires at its end and not before, and what remains is the
      time until then, as long as clock and durations stay below 2^63. */
  lemma ExpiresAtItsEnd(start: nat, duration: nat, now: nat, later: nat)
    requires later < TWO_63 && 0 < duration
    requires (if start != 0 then start else now) + duration < TWO_63
    ensures var t, end := Started(start, duration, now), (if start != 0 then start else now) + duration;
      && t.started == end - duration
      && (t.Expired(later) <==> later >= end)
      && t.Remaining(later) == (if later >= end then 0 else end - later)
  {
  }

  /** A timer without a duration is expired at any time, and nothing remains. */
  lemma NoDurationIsExpired(start: nat, now: nat, later: nat)
    ensures Started(start, 0, now).Expired(later) && Started(start, 0, now).Remaining(later) == 0
  {
  }

  // ---- Pacing ----

  /** Clock readings around a paced event: the check that it is due, and the end, when
      the timer is started for the next. */
  datatype Tick = Tick(check: nat, end: nat)

  /** Events that waited, each checked at least `pace` after the end of the one before. */
  ghost predicate Paced(ticks: seq<Tick>, pace: nat) {
    && (forall i :: 0 <= i < |ticks| ==> ticks[i].check <= ticks[i].end)
    && (forall i :: 0 < i < |ticks| ==> ticks[i - 1].end + pace <= ticks[i].check)
  }

  /** Each event happened at some time between its check and its end. */
  ghost predicate Between(ticks: seq<Tick>, times: seq<nat>) {
    && |ticks| == |times|
    && forall i :: 0 <= i < |times| ==> ticks[i].check <= times[i] <= ticks[i].end
  }

  lemma PacedSnoc(ticks: seq<Tick>, tick: Tick, pace: nat)
    requires Paced(ticks, pace) && tick.check <= tick.end
    requires ticks != [] ==> ticks[|ticks| - 1].end + pace <= tick.check
    ensures Paced(ticks + [tick], pace)
  {
  }

  function CountWithin(times: seq<nat>, from: nat, window: nat): nat {
    if times == [] then 0
    else
      CountWithin(times[..|times| - 1], from, window) +
      if from <= times[|times| - 1] <= from + window then 1 else 0
  }

  ghost predicate Apart(times: seq<nat>, pace: nat) {
    forall i, j :: 0 <= i < j < |times| ==> times[i] + pace <= times[j]
  }

  lemma {:induction false} CountSame(times: seq<nat>, from: nat, window: nat, smaller: nat)
    requires smaller <= window
    requires forall i :: 0 <= i < |times| ==> times[i] <= from + smaller
    ensures CountWithin(times, from, window) == CountWithin(times, from, smaller)
  {
    if times != [] {
      CountSame(times[..|times| - 1], from, window, smaller);
    }
  }

  lemma {:induction false} CountNone(times: seq<nat>, from: nat, window: nat)
    requires forall i :: 0 <= i < |times| ==> times[i] < from
    ensures CountWithin(times, from, window) == 0
  {
    if times != [] {
      CountNone(times[..|times| - 1], from, window);
    }
  }

  /** The length of `n` paces. */
  function Span(n: nat, pace: nat): nat {
    if n == 0 then 0 else Span(n - 1, pace) + pace
  }

  lemma SpanIsProduct(n: nat, pace: nat)
    ensures Span(n, pace) == n * pace
  {
    if n > 0 {
      SpanIsProduct(n - 1, pace);
      assert n * pace == (n - 1) * pace + pace;
    }
  }

  lemma AtMostQuotient(x: nat, w: nat, d: nat)
    requires 0 < d && x * d <= w
    ensures x <= w / d
  {
    var q := w / d;
    assert (q + 1) * d == q * d + d;
    assert w == q * d + w % d;
    if x > q {
      Ordered(q + 1, x, d);
    }
  }

  lemma SpanFits(n: nat, pace: nat, window: nat)
    requires pace > 0 && Span(n, pace) <= window + pace
    ensures n <= window / pace + 1
  {
    if n > 0 {
      SpanIsProduct(n - 1, pace);
      AtMostQuotient(n - 1, window, pace);
    }
  }

  lemma {:induction false} CountApart(times: seq<nat>, pace: nat, from: nat, window: nat)
    requires pace > 0 && Apart(times, pace)
    ensures Span(CountWithin(times, from, window), pace) <= window + pace
  {
    if times != [] {
      var front, last := times[..|times| - 1], times[|times| - 1];
      assert forall i :: 0 <= i < |front| ==> times[i] + pace <= times[|times| - 1];
      if from <= last <= from + window {
        if last < from + pace {
          CountNone(front, from, window);
        } else {
          CountSame(front, from, window, last - pace - from);
          CountApart(front, pace, from, last - pace - from);
        }
      } else {
        CountApart(front, pace, from, window);
      }
    }
  }

  lemma {:induction false} PacedApart(ticks: seq<Tick>, pace: nat, i: nat, j: nat)
    requires Paced(ticks, pace)
    requires i < j < |ticks|
    ensures ticks[i].end + pace <= ticks[j].check
    decreases j - i
  {
    if i + 1 < j {
      PacedApart(ticks, pace, i + 1, j);
    }
  }

  /** Paced events are rate limited: a window of any length, anywhere, holds at
      most one more of them than whole paces fit into it. */
  lemma PacedRate(ticks: seq<Tick>, times: seq<nat>, pace: nat, from: nat, window: nat)
    requires pace > 0 && Paced(ticks, pace) && Between(ticks, times)
    ensures CountWithin(times, from, window) <= window / pace + 1
  {
    forall i, j | 0 <= i < j < |times|
      ensures times[i] + pace <= times[j]
    {
      PacedApart(ticks, pace, i, j);
    }
    CountApart(times, pace, from, window);
    SpanFits(CountWithin(times, from, window), pace, window);
  }

  // ---- The clock and the timer object ----

  /** The system clock: each reading is at or after the one before. */
  class Clock {
    var now: nat
    ghost var readings: seq<nat>

    ghost predicate Valid()
      reads this
    {
      0 < now < CLOCK_LIMIT
    }

    constructor ()
      ensures Valid() && readings == []
    {
      now := 1;
      readings := [];
    }

    method Read() returns (t: nat)
      requires Valid()
      modifies this
      ensures Valid() && old(now) <= now == t
      ensures readings == old(readings) + [t]
    {
      t := *;
      if now <= t < CLOCK_LIMIT {
        now := t;
      }
      t := now;
      readings := readings + [t];
    }
  }

  class MicroTimer {
    var started: nat
    var ending: nat

    ghost function Model(): Timer
      reads this
    {
      Timer(started, ending)
    }

    constructor ()
      ensures Model() == Timer(0, NEVER)
    {
      started, ending := 0, NEVER;
    }

    method Init(start: nat, duration: nat, clock: Clock)
      requires clock.Valid()
      modifies this, clock
      ensures clock.Valid() && old(clock.now) <= clock.now
      ensures Model() == Started(start, duration, clock.now)
      ensures clock.readings == old(clock.readings) + if start == 0 then [clock.now] else []
    {
      started := start;
      if start == 0 {
        started := clock.Read();
      }
      ending := if duration != 0 then (started + duration) % TWO_64 else NEVER;
    }

    method Reset(duration: nat, clock: Clock)
      requires clock.Valid()
      modifies this, clock
      ensures clock.Valid() && old(clock.now) <= clock.now
      ensures Model() == Started(RIGHT_NOW, duration, clock.now)
      ensures clock.readings == old(clock.readings) + [clock.now]
    {
      Init(RIGHT_NOW, duration, clock);
    }

    /** A timer without an end is expired, and the clock is not even read. */
    method Expired(clock: Clock) returns (expired: bool)
      requires clock.Valid()
      modifies clock
      ensures clock.Valid() && old(clock.now) <= clock.now
      ensures expired == Model().Expired(clock.now)
      ensures clock.readings == old(clock.readings) + if ending == NEVER then [] else [clock.now]
    {
      if ending == NEVER {
        expired := true;
      } else {
        var now := clock.Read();
        expired := CalcDifference(ending, now) <= 0;
      }
    }

    method Remaining(clock: Clock) returns (remaining: nat)
      requires clock.Valid()
      modifies clock
      ensures clock.Valid() && old(clock.now) <= clock.now
      ensures remaining == Model().Remaining(clock.now)
      ensures clock.readings == old(clock.readings) + if ending == NEVER then [] else [clock.now]
    {
      if ending != NEVER {
        var now := clock.Read();
        var left := CalcDifference(ending, now);
        if left > 0 {
          return left;
        }
      }
      return 0;
    }
  }
}
