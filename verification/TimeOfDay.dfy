/** The wall clock: settimeofday stores an offset against the tick counter, and gettimeofday adds the
    ticks back.

    The offset is computed in 32 bits when the clock is set and in 64 bits when it is read; seconds
    and microseconds are signed 32-bit fields.
 */
module TimeOfDay {
  import opened Arithmetic

  const US := 1_000_000
  const WRAP := 0x1_0000_0000
  const ENOTSUP := 134
  // WRAP * INVERSE == 15625 * QUOTIENT + 1
  const INVERSE := 9231
  const QUOTIENT := 2537397959

  datatype Timeval = Timeval(sec: int, usec: int)

  /** The value of a 32-bit pattern as a signed number. */
  function Signed(x: int): (s: int)
    ensures -0x8000_0000 <= s < 0x8000_0000
    ensures -0x8000_0000 <= x < 0x8000_0000 ==> s == x
  {
    (x + 0x8000_0000) % WRAP - 0x8000_0000
  }

  predicate Normal(t: Timeval) {
    0 <= t.sec < 0x8000_0000 && 0 <= t.usec < US
  }

  function Micros(t: Timeval): int { t.sec * US + t.usec }

  /** The sub-second part of a tick count as the set call computes it, in 32 bits... */
  function SetPart(nticks: nat, rate: nat): (p: nat)
    requires rate > 0
    ensures p < US
  {
    nticks * (US / rate) % WRAP % US
  }

  /** ... and as the get call does, in 64 bits. */
  function GetPart(nticks: nat, rate: nat): (p: nat)
    requires rate > 0
    ensures p < US
  {
    nticks * (US / rate) % US
  }

  // ---------- What a tick count is worth ----------

  /** The time the get call attributes to a tick count. */
  function Elapsed(nticks: nat, rate: nat): nat
    requires rate > 0
  {
    nticks / rate * US + GetPart(nticks, rate)
  }

  /** It is the whole number of microseconds per tick times the count, for every count, exactly if the
      tick rate divides a million. */
  lemma ElapsedIsLinear(rate: nat)
    requires rate > 0
    ensures (forall n: nat {:trigger Elapsed(n, rate)} :: Elapsed(n, rate) == n * (US / rate)) <==> US % rate == 0
  {
    if US % rate == 0 {
      forall n: nat
        ensures Elapsed(n, rate) == n * (US / rate)
      {
        ElapsedExact(n, rate);
      }
    } else {
      ElapsedJumps(rate);
    }
  }

  lemma ElapsedExact(n: nat, rate: nat)
    requires rate > 0 && US % rate == 0
    ensures Elapsed(n, rate) == n * (US / rate)
  {
    var q, whole, part := US / rate, n / rate, n % rate;
    assert US == rate * q;
    assert n == rate * whole + part;
    Spread(rate, whole, part, q);
    Below(part, rate, q);
    DivModUnique(n * q, whole, US, part * q);
  }

  lemma Spread(rate: nat, whole: nat, part: nat, q: nat)
    ensures (rate * whole + part) * q == (rate * q) * whole + part * q
  {
    assert (rate * whole) * q == (rate * q) * whole;
  }

  /** Otherwise a full second's worth of ticks already disagrees. */
  lemma ElapsedJumps(rate: nat)
    requires rate > 0 && US % rate != 0
    ensures Elapsed(rate, rate) == US + rate * (US / rate) && Elapsed(rate, rate) != rate * (US / rate)
  {
    var q := US / rate;
    assert US == rate * q + US % rate;
    DivModUnique(rate, 1, rate, 0);
    DivModUnique(rate * q, 0, US, rate * q);
  }

  // ---------- 32 bits against 64 ----------

  /** The two calls agree on a tick count exactly if the 32-bit product has dropped a multiple of
      15625 wraps (so, in particular, if it has not wrapped at all). */
  lemma PartsAgree(nticks: nat, rate: nat)
    requires rate > 0
    ensures SetPart(nticks, rate) == GetPart(nticks, rate) <==> nticks * (US / rate) / WRAP % 15625 == 0
  {
    var x := nticks * (US / rate);
    var w, low := x / WRAP, x % WRAP;
    assert x == WRAP * w + low;
    SameRemainder(WRAP * w, low);
    WrapsOfSeconds(w);
  }

  lemma SameRemainder(a: nat, b: nat)
    ensures (a + b) % US == b % US <==> a % US == 0
  {
  }

  /** 2^32 * w is a whole number of seconds' worth of microseconds only for multiples of 5^6: INVERSE is
      the inverse of 2^32 modulo 5^6. */
  lemma WrapsOfSeconds(w: nat)
    ensures WRAP * w % US == 0 <==> w % 15625 == 0
  {
    if w % 15625 == 0 {
      var k := w / 15625;
      assert WRAP * w == US * (67108864 * k);
      DivModUnique(WRAP * w, 67108864 * k, US, 0);
    }
    if WRAP * w % US == 0 {
      var c := WRAP * w / US;
      assert WRAP * w == US * c;
      DivModUnique(w, 64 * INVERSE * c - QUOTIENT * w, 15625, 0);
    }
  }

  // ---------- Setting and reading ----------

  lemma SignedSum(a: int, b: int)
    ensures Signed(Signed(a) + b) == Signed(a + b)
  {
  }

  /** What the two normalising loops make of seconds and microseconds: nothing before the epoch. */
  function Normalised(sec: int, usec: int): Timeval {
    var total := sec * US + usec;
    if usec < 0 && total < 0 then Timeval(0, 0) else Timeval(total / US, total % US)
  }

  /** What is stored when the clock is set to t at a tick count, and what is then read at another. */
  function Offset(t: Timeval, nticks: nat, rate: nat): Timeval
    requires rate > 0
  {
    Timeval(Signed(t.sec - nticks / rate), Signed(t.usec - SetPart(nticks, rate)))
  }

  function Read(offset: Timeval, nticks: nat, rate: nat): Timeval
    requires rate > 0
  {
    Normalised(Signed(offset.sec + nticks / rate), Signed(offset.usec + GetPart(nticks, rate)))
  }

  /** Reading at any tick from the setting on, in microseconds, as long as the seconds fit. */
  lemma ReadBack(t: Timeval, n: nat, m: nat, rate: nat)
    requires rate > 0 && Normal(t) && n <= m && t.sec + m / rate - n / rate < 0x8000_0000
    ensures var total := Micros(t) + Elapsed(m, rate) - Elapsed(n, rate) + GetPart(n, rate) - SetPart(n, rate);
            Read(Offset(t, n, rate), m, rate) == if total < 0 then Timeval(0, 0) else Timeval(total / US, total % US)
  {
    Quotients(n, m, rate);
    SignedSum(t.sec - n / rate, m / rate);
    var sec, usec := t.sec + m / rate - n / rate, t.usec - SetPart(n, rate) + GetPart(m, rate);
    assert Read(Offset(t, n, rate), m, rate) == Normalised(sec, usec);
  }

  lemma Quotients(n: nat, m: nat, rate: nat)
    requires rate > 0 && n <= m
    ensures n / rate <= m / rate
  {
    var a, b := n / rate, m / rate;
    assert n == rate * a + n % rate && m == rate * b + m % rate;
    MultipleBounds(rate, a - b);
    assert rate * (a - b) == rate * a - rate * b;
  }

  /** Reading at the very tick of the setting gives the time that was set, exactly if the two calls
      agree on that tick count, or if the epoch itself was set and the reading is clamped to it. */
  lemma SameTick(t: Timeval, n: nat, rate: nat)
    requires rate > 0 && Normal(t)
    ensures Read(Offset(t, n, rate), n, rate) == t
       <==> SetPart(n, rate) == GetPart(n, rate) || (t == Timeval(0, 0) && GetPart(n, rate) < SetPart(n, rate))
  {
    ReadBack(t, n, n, rate);
    var d := GetPart(n, rate) - SetPart(n, rate);
    DivModUnique(Micros(t), t.sec, US, t.usec);
    if Micros(t) + d >= 0 {
      var total := Micros(t) + d;
      assert total == US * (total / US) + total % US;
    }
  }

  /** A set they do not agree on: at 1000 ticks a second, 4294.968 seconds after the reset. */
  lemma LateSetIsMisread()
    ensures Read(Offset(Timeval(100, 0), 4294968, 1000), 4294968, 1000) != Timeval(100, 0)
  {
    assert SetPart(4294968, 1000) == 704 && GetPart(4294968, 1000) == 968000;
    SameTick(Timeval(100, 0), 4294968, 1000);
  }

  /** With a tick rate that divides a million, and no wrap at the setting, time advances by exactly the
      microseconds per tick and the reading is normalised. */
  lemma Advances(t: Timeval, n: nat, m: nat, rate: nat)
    requires rate > 0 && US % rate == 0 && Normal(t) && n <= m
    requires n * (US / rate) < WRAP && t.sec + m / rate - n / rate < 0x7fff_ffff
    ensures var r := Read(Offset(t, n, rate), m, rate);
            Normal(r) && Micros(r) == Micros(t) + (m - n) * (US / rate)
  {
    hide Read, Offset, Elapsed;
    var q := US / rate;
    DivModUnique(n * q, 0, WRAP, n * q);
    assert SetPart(n, rate) == GetPart(n, rate);
    ReadBack(t, n, m, rate);
    ElapsedExact(n, rate);
    ElapsedExact(m, rate);
    Difference(n, m, q);
    InRange(t, n, m, rate);
  }

  lemma Difference(n: nat, m: nat, q: nat)
    requires n <= m
    ensures m * q - n * q == (m - n) * q >= 0
  {
    MultipleBounds(q, m - n);
  }

  /** The seconds of a later reading. */
  lemma InRange(t: Timeval, n: nat, m: nat, rate: nat)
    requires rate > 0 && Normal(t) && n <= m && t.sec + m / rate - n / rate < 0x7fff_ffff
    requires Micros(t) + Elapsed(m, rate) - Elapsed(n, rate) >= 0
    ensures var total := Micros(t) + Elapsed(m, rate) - Elapsed(n, rate);
            Normal(Timeval(total / US, total % US)) && Micros(Timeval(total / US, total % US)) == total
  {
    hide GetPart;
    Quotients(n, m, rate);
  }

  datatype Timezone = Timezone(minuteswest: int, dsttime: int)

  class Clock {
    var tickRate: nat
    var nticks: nat
    var resettime: Timeval
    var timezone: Timezone

    ghost predicate Valid()
      reads this
    {
      nticks < WRAP
    }

    constructor (tickRate: nat)
      ensures Valid() && this.tickRate == tickRate && nticks == 0
    {
      this.tickRate, nticks := tickRate, 0;
      resettime, timezone := Timeval(0, 0), Timezone(0, 0);
    }

    method SetTimeOfDay(t: Timeval, tz: Timezone) returns (rc: int)
      requires Valid()
      modifies this`resettime, this`timezone
      ensures Valid() && rc == if tickRate == 0 then -1 else 0
      ensures tickRate == 0 ==> resettime == old(resettime) && timezone == old(timezone)
      ensures tickRate != 0 ==> resettime == Offset(t, nticks, tickRate) && timezone == tz
    {
      if tickRate != 0 {
        var sec := Signed(t.sec - nticks / tickRate);
        var usec := Signed(t.usec - nticks * (US / tickRate) % WRAP % US);
        resettime := Timeval(sec, usec);
        timezone := tz;
        return 0;
      }
      return -1;
    }

    method GetTimeOfDay() returns (rc: int, t: Timeval, tz: Timezone)
      requires Valid()
      ensures rc == if tickRate == 0 then -ENOTSUP else 0
      ensures tickRate != 0 ==> t == Read(resettime, nticks, tickRate) && tz == timezone
    {
      t, tz := Timeval(0, 0), Timezone(0, 0);
      if tickRate != 0 {
        var sec := Signed(resettime.sec + nticks / tickRate);
        var usec := Signed(resettime.usec + nticks * (US / tickRate) % US);
        t := Normalise(sec, usec);
        return 0, t, timezone;
      }
      return -ENOTSUP, t, tz;
    }

    /** The two loops that bring the microseconds into range. */
    static method Normalise(sec0: int, usec0: int) returns (t: Timeval)
      ensures t == Normalised(sec0, usec0)
    {
      var sec, usec := sec0, usec0;
      ghost var total := sec0 * US + usec0;
      while usec < 0
        invariant usec0 >= 0 ==> usec == usec0
        invariant sec * US + usec == total || (sec == 0 == usec && usec0 < 0 && total < 0)
        invariant usec0 < 0 ==> usec < US && (usec == usec0 || sec >= 0)
        decreases -usec
      {
        if sec <= 0 {
          sec, usec := 0, 0;
          break;
        } else {
          sec := sec - 1;
          usec := usec + US;
        }
      }
      ghost var clamped := sec == 0 == usec && usec0 < 0 && total < 0;
      while usec >= US
        invariant usec >= 0 && if clamped then sec == 0 == usec else sec * US + usec == total
        decreases usec
      {
        sec := sec + 1;
        usec := usec - US;
      }
      t := Timeval(sec, usec);
      if !clamped { DivModUnique(total, sec, US, usec); }
    }
  }
}
