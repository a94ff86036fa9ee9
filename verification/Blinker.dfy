/** One element of the blinker: its duty cycle goes up and down between 0 and 100, one step every
    `dvsr` updates. */
module Blinker {
  import opened Arithmetic

  const COUNTS := 0x1_0000

  /** The divisor, duty cycle and sign are bytes; the count has 16 bits. */
  datatype State = State(dvsr: nat, duty: nat, count: nat, sign: nat)

  predicate InRange(s: State) { s.dvsr < 256 && s.duty < 256 && s.count < COUNTS && s.sign < 256 }

  function Started(s: State): State { s.(count := 0, sign := 0) }

  function Updated(s: State): State {
    var count := (s.count + 1) % COUNTS;
    var hit := count == s.dvsr;
    var duty := if !hit then s.duty else if s.sign == 0 then (s.duty + 1) % 256 else (s.duty + 255) % 256;
    State(s.dvsr, duty, if hit then 0 else count, if duty == 100 then 1 else if duty == 0 then 0 else s.sign)
  }

  function After(s: State, t: nat): State {
    if t == 0 then Started(s) else Updated(After(s, t - 1))
  }

  /** A zero divisor is met only when the count wraps. */
  function Divisor(dvsr: nat): (d: nat)
    ensures d > 0
  {
    if dvsr == 0 then COUNTS else dvsr
  }

  /** The triangle wave of period 200. */
  function Triangle(phase: nat): nat { if phase % 200 <= 100 then phase % 200 else 200 - phase % 200 }

  /** The one element that leaves the range: it starts at the top, and its first update already steps. */
  predicate Overshoots(s: State) { s.dvsr == 1 && s.duty == 100 }

  lemma NextPhase(d: nat, t: nat)
    requires 0 < d
    ensures if Rem(t, d) + 1 == d then Quo(t + 1, d) == Quo(t, d) + 1 && Rem(t + 1, d) == 0
            else Quo(t + 1, d) == Quo(t, d) && Rem(t + 1, d) == Rem(t, d) + 1
  {
    hide Quo, Rem;
    QuoRem(t, d);
    if Rem(t, d) + 1 == d {
      assert d * (Quo(t, d) + 1) == d * Quo(t, d) + d;
      QuoRemUnique(t + 1, Quo(t, d) + 1, d, 0);
    } else {
      QuoRemUnique(t + 1, Quo(t, d), d, Rem(t, d) + 1);
    }
  }

  /** The running element at a phase of the wave: the sign is set from 100 on. */
  function Phased(dvsr: nat, phase: nat, count: nat): State {
    State(dvsr, Triangle(phase), count, if phase % 200 >= 100 then 1 else 0)
  }

  lemma NextInWave(dvsr: nat, phase: nat, count: nat)
    requires dvsr < 256 && count < Divisor(dvsr)
    ensures Updated(Phased(dvsr, phase, count))
         == if count + 1 == Divisor(dvsr) then Phased(dvsr, phase + 1, 0) else Phased(dvsr, phase, count + 1)
  {
    var p := phase % 200;
    assert (phase + 1) % 200 == if p == 199 then 0 else p + 1;
    assert (count + 1) % COUNTS == if count + 1 == COUNTS then 0 else count + 1;
  }

  /** The sign only differs before the first update, at the top of the wave. */
  lemma FirstInWave(s: State)
    requires InRange(s) && s.duty <= 100 && !Overshoots(s)
    ensures Updated(Started(s)) == Updated(Phased(s.dvsr, s.duty, 0))
  {
  }

  lemma TriangleRises(phase: nat)
    requires phase <= 200
    ensures Triangle(phase) == if phase <= 100 then phase else 200 - phase
  {
  }

  /** After t updates the element has taken t / d steps along the triangle wave, from where it started
      on the rising side. */
  lemma {:induction false} FollowsTriangle(s: State, t: nat)
    requires InRange(s) && s.duty <= 100 && !Overshoots(s)
    ensures var d := Divisor(s.dvsr);
            var a := After(s, t);
            && a.duty == Triangle(s.duty + Quo(t, d)) && a.count == Rem(t, d)
            && (t > 0 ==> a == Phased(s.dvsr, s.duty + Quo(t, d), Rem(t, d)))
  {
    hide Quo, Rem, Updated, Triangle;
    var d := Divisor(s.dvsr);
    if t == 0 {
      QuoRemUnique(0, 0, d, 0);
      TriangleRises(s.duty);
    } else {
      FollowsTriangle(s, t - 1);
      NextPhase(d, t - 1);
      NextInWave(s.dvsr, s.duty + Quo(t - 1, d), Rem(t - 1, d));
      if t == 1 {
        QuoRemUnique(0, 0, d, 0);
        FirstInWave(s);
      }
    }
  }

  /** The duty cycle stays a percentage for ever, exactly if the element does not overshoot. */
  lemma StaysInRange(s: State)
    requires InRange(s) && s.duty <= 100
    ensures (forall t: nat :: After(s, t).duty <= 100) <==> !Overshoots(s)
  {
    hide Quo, Rem;
    if Overshoots(s) {
      assert After(s, 1).duty == 101;
    } else {
      forall t: nat
        ensures After(s, t).duty <= 100
      {
        FollowsTriangle(s, t);
      }
    }
  }

  /** Once it runs, it is in the same state again exactly every 200 * d updates. */
  lemma Period(s: State, t: nat, p: nat)
    requires InRange(s) && s.duty <= 100 && !Overshoots(s) && t > 0
    ensures After(s, t + p) == After(s, t) <==> p % (200 * Divisor(s.dvsr)) == 0
  {
    hide Quo, Rem, After;
    var d := Divisor(s.dvsr);
    FollowsTriangle(s, t);
    FollowsTriangle(s, t + p);
    SamePhase(s.duty, d, t, p);
  }

  /** Duty cycle and sign give the phase, and phase and count give the time. */
  lemma SamePhase(duty: nat, d: nat, t: nat, p: nat)
    requires 0 < d
    ensures (duty + Quo(t, d)) % 200 == (duty + Quo(t + p, d)) % 200 && Rem(t, d) == Rem(t + p, d)
       <==> p % (200 * d) == 0
  {
    hide Quo, Rem;
    var q, r := Quo(t, d), Rem(t, d);
    QuoRem(t, d);
    QuoRem(t + p, d);
    if p % (200 * d) == 0 {
      var k := p / (200 * d);
      assert p == (200 * d) * k;
      LaterPhase(d, q, k, t, p, r);
      SameRemainder(duty + q, 200 * k);
    }
    if (duty + q) % 200 == (duty + Quo(t + p, d)) % 200 && r == Rem(t + p, d) {
      EarlierPhase(duty, d, q, Quo(t + p, d), p);
    }
  }

  lemma LaterPhase(d: nat, q: nat, k: nat, t: nat, p: nat, r: nat)
    requires r < d && t == d * q + r && p == (200 * d) * k
    ensures Quo(t + p, d) == q + 200 * k && Rem(t + p, d) == r
  {
    hide Quo, Rem;
    assert (200 * d) * k == d * (200 * k);
    assert d * (q + 200 * k) == d * q + d * (200 * k);
    QuoRemUnique(t + p, q + 200 * k, d, r);
  }

  lemma EarlierPhase(duty: nat, d: nat, q: nat, q': nat, p: nat)
    requires 0 < d && p == d * q' - d * q && (duty + q) % 200 == (duty + q') % 200
    ensures p % (200 * d) == 0
  {
    var k := (duty + q') / 200 - (duty + q) / 200;
    assert q' - q == 200 * k;
    assert p == d * (q' - q);
    assert d * (200 * k) == (200 * d) * k;
    DivModUnique(p, k, 200 * d, 0);
  }

  lemma SameRemainder(x: nat, y: nat)
    requires y % 200 == 0
    ensures (x + y) % 200 == x % 200
  {
  }

  class Element {
    var dvsr: nat
    var duty: nat
    var count: nat
    var sign: nat

    function Now(): State
      reads this
    {
      State(dvsr, duty, count, sign)
    }

    constructor (s: State)
      ensures Now() == s
    {
      dvsr, duty, count, sign := s.dvsr, s.duty, s.count, s.sign;
    }

    method Start()
      modifies this`count, this`sign
      ensures Now() == Started(old(Now()))
    {
      count := 0;
      sign := 0;
    }

    method Update()
      modifies this`duty, this`count, this`sign
      ensures Now() == Updated(old(Now()))
    {
      count := (count + 1) % COUNTS;
      if count == dvsr {
        count := 0;
        if sign == 0 {
          duty := (duty + 1) % 256;
        } else {
          duty := (duty + 255) % 256;
        }
      }
      if duty == 100 {
        sign := 1;
      } else if duty == 0 {
        sign := 0;
      }
    }
  }
}
