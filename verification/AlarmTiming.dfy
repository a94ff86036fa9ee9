/** When an alarm goes off: the 32-bit deadline and the rollover flag against an unbounded clock.

    `now` counts ticks without bound; the system's own counter is `now % WRAP`.  FireTick is a closed
    form for the tick at which an alarm will go off; FiresFirst is what the code does, tick by tick.
 */
module AlarmTiming {

  const WRAP := 0x1_0000_0000

  /** What a callback returns to be called again; 0 would end the alarm. */
  type Period = p: nat | 0 < p < WRAP witness 1

  /** The two timing fields of an alarm. */
  datatype Setting = Setting(time: nat, rollover: bool)

  predicate InRange(s: Setting) { s.time < WRAP }

  // ---------- What the code does with one alarm ----------

  /** The start of an alarm `n` ticks ahead. */
  function Started(n: nat, nticks: nat): (s: Setting)
    requires n < WRAP && nticks < WRAP
    ensures InRange(s)
  {
    var time := (n + nticks + 1) % WRAP;
    Setting(time, time < nticks)
  }

  /** When the counter rolls over, the flag is cleared. */
  function Cleared(s: Setting, nticks: nat): (c: Setting)
    ensures c.time == s.time
  {
    if s.rollover && nticks == 0 then s.(rollover := false) else s
  }

  predicate Expired(s: Setting, nticks: nat) {
    s.time <= nticks && !s.rollover
  }

  /** The callback asked to be called again `period` ticks later. */
  function Rearmed(s: Setting, nticks: nat, period: nat): (r: Setting)
    requires InRange(s) && period < WRAP && nticks < WRAP
    ensures InRange(r)
  {
    var time := (s.time + period) % WRAP;
    Setting(time, time < nticks || s.rollover)
  }

  /** Whether the tick that brings the counter to `nticks` sets the alarm off. */
  predicate GoesOff(s: Setting, nticks: nat) {
    Expired(Cleared(s, nticks), nticks)
  }

  /** What that tick makes of the alarm; `period` is what the callback returns if it is called. */
  function Ticked(s: Setting, nticks: nat, period: nat): (r: Setting)
    requires InRange(s) && period < WRAP && nticks < WRAP
    ensures InRange(r)
  {
    var c := Cleared(s, nticks);
    if GoesOff(s, nticks) && period != 0 then Rearmed(c, nticks, period) else c
  }

  // ---------- When it goes off ----------

  /** Ticking on from `now`, the alarm first goes off at tick `at`. */
  ghost predicate FiresFirst(s: Setting, now: nat, at: nat)
    decreases at - now
  {
    && now < at
    && var nticks := (now + 1) % WRAP;
       var c := Cleared(s, nticks);
       if Expired(c, nticks) then at == now + 1 else FiresFirst(c, now + 1, at)
  }

  ghost function FireTick(s: Setting, now: nat): (at: nat)
    requires InRange(s)
    ensures now < at <= now + 2 * WRAP
  {
    var next := now + 1;
    var c := Cleared(s, next % WRAP);
    if c.rollover then next - next % WRAP + WRAP + c.time
    else if c.time <= next % WRAP then next
    else next - next % WRAP + c.time
  }

  /** The alarm's deadline field agrees with the tick it will go off at; it is not running late. */
  ghost predicate Punctual(s: Setting, now: nat)
    requires InRange(s)
  {
    s.time == FireTick(s, now) % WRAP
  }

  /** The epoch (the multiple of WRAP below) of the next tick. */
  lemma NextEpoch(now: nat)
    ensures (now + 1) % WRAP == if now % WRAP == WRAP - 1 then 0 else now % WRAP + 1
    ensures now + 1 - (now + 1) % WRAP == now - now % WRAP + if now % WRAP == WRAP - 1 then WRAP else 0
  {
  }

  /** One tick: the alarm goes off exactly at FireTick, and until then FireTick does not move. */
  lemma TickKeepsFireTick(s: Setting, now: nat)
    requires InRange(s)
    ensures var c := Cleared(s, (now + 1) % WRAP);
            && (Expired(c, (now + 1) % WRAP) <==> FireTick(s, now) == now + 1)
            && (!Expired(c, (now + 1) % WRAP) ==>
                  FireTick(c, now + 1) == FireTick(s, now) && (Punctual(c, now + 1) <==> Punctual(s, now)))
  {
    NextEpoch(now);
    NextEpoch(now + 1);
  }

  /** The closed form is the first tick the code goes off at, and the only one. */
  lemma {:induction false} FireTickIsFirst(s: Setting, now: nat, at: nat)
    requires InRange(s)
    ensures FiresFirst(s, now, at) <==> at == FireTick(s, now)
    decreases FireTick(s, now) - now + (if at > now then at - now else 0)
  {
    var c := Cleared(s, (now + 1) % WRAP);
    TickKeepsFireTick(s, now);
    if now < at && !Expired(c, (now + 1) % WRAP) {
      FireTickIsFirst(c, now + 1, at);
    }
  }

  /** An alarm started with any delay but the largest goes off exactly one tick after the delay has
      passed.  With the largest delay it does so only if the counter is about to roll over: otherwise
      the deadline coincides with the present count and the alarm goes off at the very next tick. */
  lemma StartFiresOnTime(n: nat, now: nat)
    requires n < WRAP
    ensures var s := Started(n, now % WRAP);
            && (FireTick(s, now) == now + n + 1 <==> n < WRAP - 1 || now % WRAP == WRAP - 1)
            && (n == WRAP - 1 && now % WRAP != WRAP - 1 ==> FireTick(s, now) == now + 1)
            && (FireTick(s, now) == now + n + 1 ==> Punctual(s, now))
  {
    NextEpoch(now);
    var m := now % WRAP;
    if n + m + 1 >= WRAP {
      assert (n + m + 1) % WRAP == n + m + 1 - WRAP;
    }
    Remainder(now, n + 1);
  }

  lemma Remainder(now: nat, d: nat)
    ensures (now + d) % WRAP == (now % WRAP + d) % WRAP
  {
    assert now == now / WRAP * WRAP + now % WRAP;
    assert (now + d) == now / WRAP * WRAP + (now % WRAP + d);
  }

  /** What one tick does to a punctual alarm, in terms of the unbounded clock. */
  lemma TickedFiresOnTime(s: Setting, now: nat, period: nat)
    requires InRange(s) && period < WRAP
    ensures var nticks := (now + 1) % WRAP;
            var r := Ticked(s, nticks, period);
            && (GoesOff(s, nticks) <==> FireTick(s, now) == now + 1)
            && (!GoesOff(s, nticks) ==> FireTick(r, now + 1) == FireTick(s, now))
            && (Punctual(s, now) && GoesOff(s, nticks) && period != 0 ==> FireTick(r, now + 1) == now + 1 + period)
            && (Punctual(s, now) && (GoesOff(s, nticks) ==> period != 0) ==> Punctual(r, now + 1))
  {
    TickKeepsFireTick(s, now);
    var nticks := (now + 1) % WRAP;
    if Punctual(s, now) && GoesOff(s, nticks) && period != 0 {
      RearmFiresOnTime(Cleared(s, nticks), now + 1, period);
    }
  }

  /** A punctual alarm re-armed with a non-zero period goes off exactly that much later. */
  lemma RearmFiresOnTime(s: Setting, now: nat, period: nat)
    requires s.time == now % WRAP && !s.rollover && 0 < period < WRAP
    ensures var r := Rearmed(s, now % WRAP, period);
            FireTick(r, now) == now + period && Punctual(r, now)
  {
    NextEpoch(now);
    var m := now % WRAP;
    if m + period >= WRAP {
      assert (m + period) % WRAP == m + period - WRAP;
    }
    Remainder(now, period);
  }

  // ---------- Whole runs of one alarm ----------

  /** The ticks at which an alarm goes off during `ticks` ticks after `now`, when its callback returns
      `periods` one after the other, and 0 once they are used up. */
  ghost function Firings(s: Setting, now: nat, periods: seq<Period>, ticks: nat): seq<nat>
    requires InRange(s)
    decreases ticks
  {
    var nticks := (now + 1) % WRAP;
    if ticks == 0 then []
    else if !GoesOff(s, nticks) then Firings(Ticked(s, nticks, 0), now + 1, periods, ticks - 1)
    else if periods == [] then [now + 1]
    else [now + 1] + Firings(Ticked(s, nticks, periods[0]), now + 1, periods[1..], ticks - 1)
  }

  /** The intended firing ticks up to `last`: the first at `at`, each later one `period` after. */
  ghost function Intended(at: nat, periods: seq<Period>, last: nat): seq<nat>
    decreases |periods|
  {
    if at > last then []
    else if periods == [] then [at]
    else [at] + Intended(at + periods[0], periods[1..], last)
  }

  /** An alarm that is on time goes off exactly when intended, over any number of ticks and counter
      roll-overs. */
  lemma {:induction false} RunsOnTime(s: Setting, now: nat, periods: seq<Period>, ticks: nat)
    requires InRange(s) && Punctual(s, now)
    ensures Firings(s, now, periods, ticks) == Intended(FireTick(s, now), periods, now + ticks)
    decreases ticks
  {
    if ticks > 0 {
      var nticks := (now + 1) % WRAP;
      if !GoesOff(s, nticks) {
        TickedFiresOnTime(s, now, 0);
        RunsOnTime(Ticked(s, nticks, 0), now + 1, periods, ticks - 1);
      } else if periods == [] {
        TickedFiresOnTime(s, now, 0);
      } else {
        TickedFiresOnTime(s, now, periods[0]);
        RunsOnTime(Ticked(s, nticks, periods[0]), now + 1, periods[1..], ticks - 1);
      }
    }
  }

  /** From the start of the alarm on. */
  lemma StartedAlarmRunsOnTime(n: nat, now: nat, periods: seq<Period>, ticks: nat)
    requires n < WRAP - 1
    ensures Firings(Started(n, now % WRAP), now, periods, ticks) == Intended(now + n + 1, periods, now + ticks)
  {
    StartFiresOnTime(n, now);
    RunsOnTime(Started(n, now % WRAP), now, periods, ticks);
  }

  /** A delay the code gets wrong: asked to wait 2^32 ticks at tick 0, the alarm goes off at tick 1. */
  lemma LargestDelayIsMissed()
    ensures FiresFirst(Started(WRAP - 1, 0), 0, 1)
  {
    FireTickIsFirst(Started(WRAP - 1, 0), 0, 1);
    StartFiresOnTime(WRAP - 1, 0);
  }
}
