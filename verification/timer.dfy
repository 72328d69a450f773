/** The retransmission timer (RFC 6347, section 4.2.4). */
module RetransmitTimer {
  import opened Bits

  const MTU_TIMEOUTS: nat := 2
  const MAX_TIMEOUTS: nat := 12
  const MAX_DURATION: nat := 60000
  const INT_MAX: nat := 0x7fff_ffff

  /** Seconds and microseconds. */
  datatype Time = Time(sec: nat, usec: nat)

  const NEVER := Time(0, 0)

  predicate Normal(t: Time) { t.usec < 1000000 }

  function Micros(t: Time): nat { 1000000 * t.sec + t.usec }

  /** The duration after one more expiry: doubled in 32 bits, then capped. */
  function Doubled(ms: nat): nat {
    var d := ms * 2 % TWO_32;
    if d > MAX_DURATION then MAX_DURATION else d
  }

  function Backoff(initial: nat, k: nat): nat {
    if k == 0 then initial else Doubled(Backoff(initial, k - 1))
  }

  function Min(a: nat, b: nat): nat { if a <= b then a else b }

  /** Normal timer values double up to a minute. */
  lemma {:induction false} BackoffDoubles(initial: nat, k: nat)
    requires initial <= 60000
    ensures Backoff(initial, k) == Min(60000, initial * Pow2(k))
  {
    if k > 0 {
      BackoffDoubles(initial, k - 1);
      Twice(initial, Pow2(k - 1));
      DoubledMin(initial * Pow2(k - 1));
      hide Pow2, Doubled, Min;
    }
  }

  lemma {:induction false} DoubledMin(b: nat)
    ensures Doubled(Min(MAX_DURATION, b)) == Min(MAX_DURATION, 2 * b)
  {
  }

  lemma {:induction false} Twice(a: nat, p: nat)
    ensures a * (2 * p) == 2 * (a * p)
  {
  }

  lemma {:induction false} BackoffShift(initial: nat, k: nat)
    ensures Backoff(initial, k + 1) == Backoff(Doubled(initial), k)
  {
    if k > 0 { BackoffShift(initial, k - 1); }
  }

  lemma {:induction false} CapTwice(x: nat, p: nat)
    requires p >= 1
    ensures Min(MAX_DURATION, Min(MAX_DURATION, x) * p) == Min(MAX_DURATION, x * p)
  {
    if x > MAX_DURATION {
      assert MAX_DURATION * p >= MAX_DURATION;
      assert x * p >= MAX_DURATION * p;
    }
  }

  /** For every initial value, all later durations are the first doubling, which is done in 32 bits, doubled
      further up to a minute. */
  lemma {:induction false} BackoffExactly(initial: nat, k: nat)
    requires k >= 1
    ensures Backoff(initial, k) == Min(60000, 2 * initial % TWO_32 * Pow2(k - 1))
  {
    BackoffShift(initial, k - 1);
    BackoffDoubles(Doubled(initial), k - 1);
    CapTwice(2 * initial % TWO_32, Pow2(k - 1));
    hide Pow2;
  }

  /** The first doubling of an arbitrary 32-bit initial value is right unless it overflows to something
      below the cap; later ones always start at the cap or below. */
  lemma {:induction false} FirstDoubling(initial: nat)
    requires initial < TWO_32
    ensures Doubled(initial) == Min(60000, 2 * initial) <==> initial < TWO_31 || initial >= TWO_31 + 30000
  {
  }

  /** A normalised pair of seconds and microseconds determines, and is determined by, their sum. */
  lemma {:induction false} Normalised(next: Time, now: Time, sec: int, usec: nat)
    requires 0 <= sec && usec < 1000000 && 1000000 * sec + usec == Micros(next) - Micros(now)
    ensures var rest := Micros(next) - Micros(now);
            && usec == rest % 1000000 && Micros(Time(sec, usec)) == rest
            && (rest < 15000 <==> sec == 0 && usec < 15000)
            && (rest >= 1000000 * (INT_MAX + 1) <==> sec > INT_MAX)
  {
  }

  // ----- the timer as a value

  /** Deadline (zero when at rest), current duration, and timeouts counted since the last stop. */
  datatype Clock = Clock(deadline: Time, durationMs: nat, count: nat)

  /** Stopped, with nothing counted. */
  predicate AtRest(c: Clock) { c.deadline == NEVER && c.count == 0 }

  function Deadline(now: Time, ms: nat): Time {
    var sec, usec := now.sec + ms / 1000, now.usec + ms % 1000 * 1000;
    if usec >= 1000000 then Time(sec + 1, usec - 1000000) else Time(sec, usec)
  }

  /** Arming the timer; at rest it starts over from the initial duration. */
  function Armed(initial: nat, c: Clock, now: Time): Clock {
    var ms := if c.deadline == NEVER then initial else c.durationMs;
    Clock(Deadline(now, ms), ms, c.count)
  }

  /** Within 15 ms of the deadline counts as past it. */
  predicate Expired(c: Clock, now: Time) {
    c.deadline != NEVER && Micros(c.deadline) < Micros(now) + 15000
  }

  predicate Retransmits(c: Clock, now: Time) {
    Expired(c, now) && (c.count + 1) % TWO_32 <= MAX_TIMEOUTS
  }

  /** Handling a timeout. */
  function Handled(initial: nat, c: Clock, now: Time): Clock {
    if !Expired(c, now) then c
    else
      var counted := c.(count := (c.count + 1) % TWO_32);
      if Retransmits(c, now) then Armed(initial, counted.(durationMs := Doubled(c.durationMs)), now) else counted
  }

  class Timer {
    var nextTimeout: Time
    var durationMs: nat
    var numTimeouts: nat
    const initialMs: nat
    /** Expiries handled since the timer was last armed from rest. */
    ghost var expiries: nat

    ghost predicate Valid()
      reads this
    {
      && Normal(nextTimeout) && durationMs < TWO_32 && initialMs < TWO_32 && numTimeouts < TWO_32
      && (Running() ==> durationMs == Backoff(initialMs, expiries))
    }

    predicate Running()
      reads this
    {
      nextTimeout != NEVER
    }

    ghost function Now(): Clock
      reads this
    {
      Clock(nextTimeout, durationMs, numTimeouts)
    }

    constructor (initialMs: nat)
      requires initialMs < TWO_32
      ensures Valid() && !Running() && Now() == Clock(NEVER, 0, 0) && this.initialMs == initialMs
    {
      this.initialMs, nextTimeout, durationMs, numTimeouts, expiries := initialMs, NEVER, 0, 0, 0;
    }

    /** Arms the timer: exactly the duration from now. */
    method Start(now: Time)
      requires Valid() && Normal(now)
      modifies this`nextTimeout, this`durationMs, this`expiries
      ensures Valid() && durationMs == Backoff(initialMs, expiries)
      ensures expiries == if old(Running()) then old(expiries) else 0
      ensures Micros(nextTimeout) == Micros(now) + 1000 * durationMs
      ensures Now() == Armed(initialMs, old(Now()), now)
    {
      if nextTimeout.sec == 0 && nextTimeout.usec == 0 { durationMs, expiries := initialMs, 0; }
      var sec, usec := now.sec + durationMs / 1000, now.usec + durationMs % 1000 * 1000;
      if usec >= 1000000 { sec, usec := sec + 1, usec - 1000000; }
      nextTimeout := Time(sec, usec);
    }

    /** Time left: none when expired or within 15 ms, else the exact difference, with the seconds
        clamped to an int. */
    method GetTimeout(now: Time) returns (left: Option<Time>)
      requires Valid() && Normal(now)
      ensures left.Some? <==> Running()
      ensures left.Some? ==>
                var rest := Micros(nextTimeout) - Micros(now);
                && Normal(left.value)
                && (rest < 15000 ==> left.value == NEVER)
                && (15000 <= rest && rest < 1000000 * (INT_MAX + 1) ==> Micros(left.value) == rest)
                && (rest >= 1000000 * (INT_MAX + 1) ==> left.value == Time(INT_MAX, rest % 1000000))
    {
      if nextTimeout.sec == 0 && nextTimeout.usec == 0 { return None; }
      if nextTimeout.sec < now.sec || (nextTimeout.sec == now.sec && nextTimeout.usec <= now.usec) { return Some(NEVER); }
      var sec: int := nextTimeout.sec - now.sec;
      var usec: nat;
      if nextTimeout.usec >= now.usec {
        usec := nextTimeout.usec - now.usec;
      } else {
        usec := 1000000 + nextTimeout.usec - now.usec;
        sec := sec - 1;
      }
      Normalised(nextTimeout, now, sec, usec);
      hide Micros, Backoff;
      if sec == 0 && usec < 15000 { usec := 0; }
      left := Some(Time(if sec > INT_MAX then INT_MAX else sec, usec));
    }

    method IsExpired(now: Time) returns (expired: bool)
      requires Valid() && Normal(now)
      ensures expired <==> Running() && Micros(nextTimeout) < Micros(now) + 15000
    {
      var left := GetTimeout(now);
      if left.None? { return false; }
      expired := !(left.value.sec > 0 || left.value.usec > 0);
    }

    method Stop()
      modifies this`nextTimeout, this`durationMs, this`numTimeouts
      requires Valid()
      ensures Valid() && !Running() && Now() == Clock(NEVER, initialMs, 0)
    {
      numTimeouts, nextTimeout, durationMs := 0, NEVER, initialMs;
    }

    /** Counts a timeout; the connection is given up after twelve.  After two, the path may offer a
        smaller fallback MTU. */
    method CheckTimeoutNum(queryMtu: bool, fallback: int, minMtu: nat, mtu: nat) returns (ok: bool, mtu': nat)
      requires Valid()
      modifies this`numTimeouts
      ensures Valid() && numTimeouts == (old(numTimeouts) + 1) % TWO_32
      ensures ok <==> numTimeouts <= 12
      ensures mtu' == if numTimeouts > 2 && queryMtu && minMtu <= fallback <= 0x4000_0000 then fallback else mtu
    {
      numTimeouts := (numTimeouts + 1) % TWO_32;
      mtu' := mtu;
      if numTimeouts > MTU_TIMEOUTS && queryMtu {
        if fallback >= 0 && fallback <= 0x4000_0000 && fallback >= minMtu { mtu' := fallback; }
      }
      ok := numTimeouts <= MAX_TIMEOUTS;
    }

    method DoubleTimeout()
      requires Valid()
      modifies this`durationMs, this`expiries
      ensures Valid() && durationMs == Doubled(old(durationMs)) && expiries == old(expiries) + 1
    {
      expiries := expiries + 1;
      durationMs := durationMs * 2 % TWO_32;
      if durationMs > MAX_DURATION { durationMs := MAX_DURATION; }
    }

    /** The timer's part of handling a timeout: nothing unless it has expired, else the count, the longer
        duration and the new deadline. */
    method HandleTimeout(now: Time, queryMtu: bool, fallback: int, minMtu: nat, mtu: nat)
      returns (expired: bool, retransmit: bool, mtu': nat)
      requires Valid() && Normal(now)
      modifies this`nextTimeout, this`durationMs, this`numTimeouts, this`expiries
      ensures Valid() && (retransmit ==> expired)
      ensures Now() == Handled(initialMs, old(Now()), now)
      ensures expired == Expired(old(Now()), now) && retransmit == Retransmits(old(Now()), now)
      ensures expired <==> old(Running()) && Micros(old(nextTimeout)) < Micros(now) + 15000
      ensures !expired ==> nextTimeout == old(nextTimeout) && durationMs == old(durationMs) && numTimeouts == old(numTimeouts)
      ensures mtu' == if expired && numTimeouts > 2 && queryMtu && minMtu <= fallback <= 0x4000_0000 then fallback
                      else mtu
      ensures expired ==> numTimeouts == (old(numTimeouts) + 1) % TWO_32 && (retransmit <==> numTimeouts <= 12)
      ensures retransmit ==>
                && expiries == old(expiries) + 1 && durationMs == Backoff(initialMs, expiries)
                && Micros(nextTimeout) == Micros(now) + 1000 * durationMs
      ensures expired && !retransmit ==> nextTimeout == old(nextTimeout) && durationMs == old(durationMs)
    {
      expired := IsExpired(now);
      retransmit, mtu' := false, mtu;
      if !expired { return; }
      retransmit, mtu' := CheckTimeoutNum(queryMtu, fallback, minMtu, mtu);
      if !retransmit { return; }
      DoubleTimeout();
      Start(now);
    }
  }

  // ----- runs

  /** What happens to a timer between two stops: a flight is flushed, or a timeout is handled. */
  datatype Event = Flushed(now: Time) | Polled(now: Time)

  function Next(initial: nat, c: Clock, e: Event): Clock {
    match e
    case Flushed(now) => Armed(initial, c, now)
    case Polled(now) => Handled(initial, c, now)
  }

  function Run(initial: nat, c: Clock, es: seq<Event>): Clock {
    if es == [] then c else Next(initial, Run(initial, c, es[..|es| - 1]), es[|es| - 1])
  }

  /** The polls of a run that found the timer expired, by their place in it. */
  function Expiries(initial: nat, c: Clock, es: seq<Event>): seq<nat> {
    if es == [] then []
    else
      var n := |es| - 1;
      Expiries(initial, c, es[..n]) +
      if es[n].Polled? && Expired(Run(initial, c, es[..n]), es[n].now) then [n] else []
  }

  /** Those that led to a retransmission. */
  function Retransmissions(initial: nat, c: Clock, es: seq<Event>): seq<nat> {
    if es == [] then []
    else
      var n := |es| - 1;
      Retransmissions(initial, c, es[..n]) +
      if es[n].Polled? && Retransmits(Run(initial, c, es[..n]), es[n].now) then [n] else []
  }

  lemma {:induction false} CountModulo(n: nat)
    ensures (n % TWO_32 + 1) % TWO_32 == (n + 1) % TWO_32
  {
  }

  lemma {:induction false} HandledCounts(initial: nat, c: Clock, now: Time, n: nat)
    requires c.count == n % TWO_32
    ensures Handled(initial, c, now).count == if Expired(c, now) then (n + 1) % TWO_32 else n % TWO_32
  {
    hide Expired, Deadline, Doubled;
    CountModulo(n);
  }

  /** The count is the number of expiries, modulo 2^32. */
  lemma {:induction false} CountsExpiries(initial: nat, c: Clock, es: seq<Event>)
    requires AtRest(c)
    ensures Run(initial, c, es).count == |Expiries(initial, c, es)| % TWO_32
  {
    hide Expired, Deadline, Handled;
    if es == [] { return; }
    var n := |es| - 1;
    CountsExpiries(initial, c, es[..n]);
    HandledCounts(initial, Run(initial, c, es[..n]), es[n].now, |Expiries(initial, c, es[..n])|);
  }

  /** After a stop, however flushes and polls follow each other, exactly the first twelve expiries
      retransmit; the rest are refused, until the 32-bit count wraps. */
  lemma {:induction false} TwelveRetransmissions(initial: nat, c: Clock, es: seq<Event>)
    requires AtRest(c) && |Expiries(initial, c, es)| < TWO_32
    ensures var all := Expiries(initial, c, es);
            Retransmissions(initial, c, es) == all[..Min(|all|, 12)]
  {
    hide Expired, Next;
    if es == [] { return; }
    var n := |es| - 1;
    TwelveRetransmissions(initial, c, es[..n]);
    CountsExpiries(initial, c, es[..n]);
    var before := |Expiries(initial, c, es[..n])|;
    CountModulo(before);
    if before + 1 < TWO_32 { SmallMod(before + 1); }
  }

  lemma {:induction false} SmallMod(n: nat)
    requires n < TWO_32
    ensures n % TWO_32 == n
  {
  }

  /** The expiry that wraps the count retransmits again. */
  lemma {:induction false} RetransmitsAgain(initial: nat, c: Clock, es: seq<Event>, now: Time)
    requires AtRest(c) && |Expiries(initial, c, es)| == TWO_32 - 1
    ensures Retransmits(Run(initial, c, es), now) <==> Expired(Run(initial, c, es), now)
  {
    hide Expired, Run;
    CountsExpiries(initial, c, es);
    SmallMod(TWO_32 - 1);
  }

  /** The retransmissions since the timer was last at rest. */
  function Since(initial: nat, c: Clock, es: seq<Event>): nat {
    if es == [] then 0
    else
      var n := |es| - 1;
      var before := Run(initial, c, es[..n]);
      if before.deadline == NEVER then 0
      else Since(initial, c, es[..n]) + if es[n].Polled? && Retransmits(before, es[n].now) then 1 else 0
  }

  /** While the timer runs, its duration is the initial one backed off once for each retransmission since
      it was last at rest. */
  lemma {:induction false} BacksOffPerRetransmission(initial: nat, c: Clock, es: seq<Event>)
    requires AtRest(c)
    ensures var end := Run(initial, c, es);
            end.deadline != NEVER ==> end.durationMs == Backoff(initial, Since(initial, c, es))
  {
    if es == [] { return; }
    var n := |es| - 1;
    BacksOffPerRetransmission(initial, c, es[..n]);
    RunsIfExpired(Run(initial, c, es[..n]), es[n].now);
    hide Deadline, Expired, Doubled;
  }

  lemma {:induction false} RunsIfExpired(c: Clock, now: Time)
    ensures Expired(c, now) ==> c.deadline != NEVER
  {
  }

  /** The timer is only at rest again when it is armed for nothing at time zero, the value that stands for
      no deadline. */
  lemma {:induction false} DeadlineNever(now: Time, ms: nat)
    ensures Deadline(now, ms) == NEVER <==> now == NEVER && ms == 0
  {
  }

  ghost predicate ClockRuns(es: seq<Event>) { forall i :: 0 <= i < |es| ==> es[i].now != NEVER }

  /** With a clock that is past zero, these are all retransmissions since the stop. */
  lemma {:induction false} SinceStop(initial: nat, c: Clock, es: seq<Event>)
    requires AtRest(c) && ClockRuns(es)
    ensures Since(initial, c, es) == |Retransmissions(initial, c, es)|
    ensures Run(initial, c, es).deadline == NEVER ==> Since(initial, c, es) == 0
  {
    if es == [] { return; }
    var n := |es| - 1;
    SinceStop(initial, c, es[..n]);
    hide Deadline, Expired;
    var before := Run(initial, c, es[..n]);
    RunsIfExpired(before, es[n].now);
    DeadlineNever(es[n].now, if before.deadline == NEVER then initial else before.durationMs);
    DeadlineNever(es[n].now, Doubled(before.durationMs));
  }
}
