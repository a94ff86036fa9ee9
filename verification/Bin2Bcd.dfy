/** The shift-and-add-3 binary to BCD converter, a clocked state machine parametric in the number of
    digits BCD_N and the input width BIN_N.

    Digits are stored least significant first, as in bcd_reg.  Register widths are written out: the
    shift register has 3 * BCD_N + 1 bits, the step counter BCD_N bits, each digit 4 bits.
 */
module Bin2Bcd {

  import opened Arithmetic

  // ---------- Numbers ----------

  function Pow10(n: nat): (p: nat)
    ensures p > 0
  {
    if n == 0 then 1 else 10 * Pow10(n - 1)
  }

  /** The number a list of decimal digits stands for, least significant first. */
  function Value(d: seq<nat>): nat {
    if d == [] then 0 else d[0] + 10 * Value(d[1..])
  }

  predicate Decimal(d: seq<nat>) {
    forall i :: 0 <= i < |d| ==> d[i] <= 9
  }

  /** The decimal digits of x in n places. */
  function Digits(x: nat, n: nat): (d: seq<nat>)
    ensures |d| == n
  {
    if n == 0 then [] else [x % 10] + Digits(x / 10, n - 1)
  }

  /** Decimal digits are determined by the value: no other digits in the same places have it. */
  lemma {:induction false} DigitsUnique(d: seq<nat>)
    requires Decimal(d)
    ensures Value(d) < Pow10(|d|) && Digits(Value(d), |d|) == d
  {
    if d != [] {
      DigitsUnique(d[1..]);
      DivModUnique(Value(d), Value(d[1..]), 10, d[0]);
      assert d == [d[0]] + d[1..];
    }
  }

  /** They are decimal, and have the value they were made from if it fits. */
  lemma {:induction false} DigitsValue(x: nat, n: nat)
    requires x < Pow10(n)
    ensures Decimal(Digits(x, n)) && Value(Digits(x, n)) == x
  {
    if n > 0 {
      DigitsValue(x / 10, n - 1);
      assert Digits(x, n)[1..] == Digits(x / 10, n - 1);
    }
  }

  // ---------- One shift step ----------

  /** The combinational add-3 stage, on 4 bits. */
  function Adjusted(digit: nat): (a: nat)
    requires digit < 16
    ensures a < 16
  {
    if digit > 4 then (digit + 3) % 16 else digit
  }

  /** All digits shifted left by one place with `carry` entering at the bottom: each gets the low three
      bits of its adjusted value and the top bit of its lower neighbour's. */
  function Shifted(d: seq<nat>, carry: nat): (s: seq<nat>)
    requires (forall i :: 0 <= i < |d| ==> d[i] < 16) && carry < 2
    ensures |s| == |d| && forall i :: 0 <= i < |s| ==> s[i] < 16
  {
    if d == [] then []
    else
      var a := Adjusted(d[0]);
      [2 * (a % 8) + carry] + Shifted(d[1..], a / 8)
  }

  /** The bit that leaves at the top. */
  function CarryOut(d: seq<nat>, carry: nat): (c: nat)
    requires (forall i :: 0 <= i < |d| ==> d[i] < 16) && carry < 2
    ensures c < 2
  {
    if d == [] then carry else CarryOut(d[1..], Adjusted(d[0]) / 8)
  }

  /** On decimal digits a step doubles the value and adds the incoming bit; only what exceeds the
      places available is lost. */
  lemma {:induction false} ShiftedValue(d: seq<nat>, carry: nat)
    requires Decimal(d) && carry < 2
    ensures Decimal(Shifted(d, carry))
    ensures Value(Shifted(d, carry)) + Pow10(|d|) * CarryOut(d, carry) == 2 * Value(d) + carry
  {
    hide Adjusted;
    if d != [] {
      var a := Adjusted(d[0]);
      AddThree(d[0], carry);
      ShiftedValue(d[1..], a / 8);
      assert Shifted(d, carry)[1..] == Shifted(d[1..], a / 8);
      Tenfold(Pow10(|d| - 1), CarryOut(d[1..], a / 8));
    }
  }

  /** Adding 3 from 5 on makes doubling a digit carry at ten instead of at sixteen. */
  lemma AddThree(digit: nat, carry: nat)
    requires digit <= 9 && carry < 2
    ensures var a := Adjusted(digit);
            a / 8 < 2 && 2 * (a % 8) + carry <= 9 && 2 * (a % 8) + carry + 10 * (a / 8) == 2 * digit + carry
  {
  }

  lemma Tenfold(p: nat, c: nat)
    ensures 10 * p * c == 10 * (p * c)
  {
  }

  /** A step that stays below the places available loses nothing. */
  lemma ShiftedFits(d: seq<nat>, carry: nat)
    requires Decimal(d) && carry < 2 && 2 * Value(d) + carry < Pow10(|d|)
    ensures Decimal(Shifted(d, carry)) && Value(Shifted(d, carry)) == 2 * Value(d) + carry
  {
    hide Shifted, Value, Pow10, CarryOut;
    ShiftedValue(d, carry);
    MultipleBounds(Pow10(|d|), CarryOut(d, carry));
  }

  // ---------- Widths ----------

  /** From four digits on, BCD_N digits hold every 3 * BCD_N + 1 bit number. */
  lemma {:induction false} DigitsSuffice(n: nat)
    requires n >= 4
    ensures Pow2(3 * n + 1) <= Pow10(n)
  {
    if n == 4 {
      assert Pow2(13) == 8192 by { Pow2Values(); }
      assert Pow10(4) == 10000 by {
        assert Pow10(2) == 100;
        assert Pow10(3) == 1000;
      }
    } else {
      DigitsSuffice(n - 1);
      assert Pow2(3 * n + 1) == 2 * Pow2(3 * n) == 4 * Pow2(3 * n - 1) == 8 * Pow2(3 * (n - 1) + 1);
    }
  }

  /** The step count fits the BCD_N-bit counter exactly from four digits on. */
  lemma {:induction false} CountFits(n: nat)
    requires n >= 1
    ensures 3 * n + 1 < Pow2(n) <==> n >= 4
  {
    if n == 4 {
      Pow2Values();
    } else if n < 4 {
      assert Pow2(1) == 2 && Pow2(2) == 4 && Pow2(3) == 8;
    } else {
      CountFits(n - 1);
    }
  }

  // ---------- Loading the operand ----------

  /** Bits in the shift register. */
  function Bits(digits: nat): nat { 3 * digits + 1 }

  /** What the load puts into the shift register: the expression ~bin + 1 is evaluated at the wider of
      the two widths and then cut to the register. */
  function Loaded(digits: nat, width: nat, sign: bool, bin: nat): (p2s: nat)
    requires bin < Pow2(width)
    ensures p2s < Pow2(Bits(digits))
  {
    var wide := if width < Bits(digits) then Bits(digits) else width;
    Pow2Monotone(width, wide);
    var full := if sign then (Pow2(wide) - 1 - bin + 1) % Pow2(wide) else bin;
    full % Pow2(Bits(digits))
  }

  /** It is the input, or its negation, modulo the register. */
  lemma LoadedIsModular(digits: nat, width: nat, sign: bool, bin: nat)
    requires bin < Pow2(width)
    ensures Loaded(digits, width, sign, bin) == (if sign then 0 - bin else bin) % Pow2(Bits(digits))
  {
    var m := Pow2(Bits(digits));
    var wide := if width < Bits(digits) then Bits(digits) else width;
    Pow2Monotone(width, wide);
    if sign {
      Pow2Sum(Bits(digits), wide - Bits(digits));
      NegationCut(m, Pow2(wide - Bits(digits)), bin);
    }
  }

  /** Negating in a wider register and cutting is negating in the narrow one. */
  lemma NegationCut(m: nat, k: nat, x: nat)
    requires 0 < m && 0 < k && x < m * k
    ensures (m * k - 1 - x + 1) % (m * k) % m == (0 - x) % m
  {
    var q, r := (0 - x) / m, (0 - x) % m;
    if x == 0 {
      DivModUnique(m * k, 1, m * k, 0);
      DivModUnique(0, 0, m, 0);
    } else {
      DivModUnique(m * k - x, 0, m * k, m * k - x);
      assert m * (k + q) == m * k + m * q;
      DivModUnique(m * k - x, k + q, m, r);
    }
  }

  /** A negative number -v reaches the converter as its two's complement sign and low bits.  The digits
      then show v (modulo the register) exactly if the input is at least as wide as the register. */
  lemma NegativeShowsMagnitude(digits: nat, width: nat, v: nat)
    requires 1 <= v <= Pow2(width)
    ensures Loaded(digits, width, true, Pow2(width) - v) == v % Pow2(Bits(digits)) <==> width >= Bits(digits)
  {
    hide Loaded, Bits;
    LoadedIsModular(digits, width, true, Pow2(width) - v);
    if width >= Bits(digits) {
      Pow2Sum(Bits(digits), width - Bits(digits));
      WideMagnitude(Pow2(Bits(digits)), Pow2(width - Bits(digits)), v);
    } else {
      Pow2Monotone(width + 1, Bits(digits));
      NarrowMagnitude(Pow2(Bits(digits)), Pow2(width), v);
    }
  }

  lemma WideMagnitude(m: nat, k: nat, v: nat)
    requires 0 < m
    ensures (0 - (m * k - v)) % m == v % m
  {
    assert m * (v / m - k) == m * (v / m) - m * k;
    DivModUnique(v - m * k, v / m - k, m, v % m);
  }

  lemma NarrowMagnitude(m: nat, p: nat, v: nat)
    requires 2 * p <= m && 1 <= v <= p
    ensures (0 - (p - v)) % m != v % m
  {
    DivModUnique(v, 0, m, v);
    DivModUnique(v - p, if v == p then 0 else -1, m, if v == p then 0 else m - (p - v));
  }

  // ---------- The state machine ----------

  /** The top bit of a register of `bits` bits. */
  function TopBit(p2s: nat, bits: nat): (b: nat)
    requires 0 < bits && p2s < Pow2(bits)
    ensures b < 2
  {
    MultipleBounds(Pow2(bits - 1), p2s / Pow2(bits - 1) - 2);
    p2s / Pow2(bits - 1)
  }

  /** The register shifted left by one place. */
  function ShiftedLeft(p2s: nat, bits: nat): (s: nat)
    ensures s < Pow2(bits)
  {
    2 * p2s % Pow2(bits)
  }

  datatype State = Idle | Op | Done

  /** Where a conversion of `operand` stands: n bits, `low`, are still to be shifted in, at the top of
      the shift register; the digits hold the bits before them. */
  ghost predicate InProgress(bcd: seq<nat>, operand: nat, low: nat, n: nat, p2s: nat, bits: nat) {
    && n <= bits && low < Pow2(n)
    && p2s == low * Pow2(bits - n)
    && Decimal(bcd) && operand == Value(bcd) * Pow2(n) + low
  }

  /** One step: the top bit of the shift register moves into the digits. */
  lemma StepInProgress(bcd: seq<nat>, operand: nat, low: nat, n: nat, p2s: nat, bits: nat)
    requires InProgress(bcd, operand, low, n, p2s, bits) && 0 < n
    requires operand < Pow2(bits) <= Pow10(|bcd|)
    requires p2s < Pow2(bits) && (forall i :: 0 <= i < |bcd| ==> bcd[i] < 16)
    ensures InProgress(Shifted(bcd, TopBit(p2s, bits)), operand, low % Pow2(n - 1), n - 1, ShiftedLeft(p2s, bits), bits)
  {
    hide Shifted, Value, Pow10, Pow2;
    var half := Pow2(n - 1);
    var bit, rest := low / half, low % half;
    SplitTop(low, n);
    TopBitMoves(low, half, Pow2(bits - n), bit, rest, n, bits);
    NextValue(Value(bcd), bit, rest, half, operand, Pow10(|bcd|));
    ShiftedFits(bcd, bit);
  }

  lemma SplitTop(low: nat, n: nat)
    requires 0 < n && low < Pow2(n)
    ensures var half := Pow2(n - 1);
            Pow2(n) == 2 * half && low / half < 2 && low == half * (low / half) + low % half
  {
    MultipleBounds(Pow2(n - 1), low / Pow2(n - 1) - 2);
  }

  /** The register's top bit is the top bit of what is left, and shifting drops it. */
  lemma TopBitMoves(low: nat, half: nat, scale: nat, bit: nat, rest: nat, n: nat, bits: nat)
    requires 0 < n <= bits && half == Pow2(n - 1) && scale == Pow2(bits - n)
    requires low == half * bit + rest && rest < half && bit < 2
    ensures low * scale / Pow2(bits - 1) == bit
    ensures 2 * (low * scale) % Pow2(bits) == rest * (2 * scale)
    ensures 2 * scale == Pow2(bits - (n - 1))
  {
    Pow2Sum(n - 1, bits - n);
    TopPart(low, half, scale, bit, rest);
  }

  lemma TopPart(low: nat, half: nat, scale: nat, bit: nat, rest: nat)
    requires 0 < half && 0 < scale && low == half * bit + rest && rest < half
    ensures 0 < half * scale
    ensures low * scale / (half * scale) == bit
    ensures 2 * (low * scale) % (2 * (half * scale)) == rest * (2 * scale)
  {
    MultipleBounds(half, scale);
    Below(rest, half, scale);
    Distribute(half, bit, rest, scale);
    var top, part := half * scale, rest * scale;
    DivModUnique(low * scale, bit, top, part);
    Doubled(low * scale, bit, top, part);
    assert rest * (2 * scale) == 2 * part;
  }

  lemma Doubled(x: nat, q: nat, m: nat, r: nat)
    requires x == m * q + r && r < m
    ensures 2 * x % (2 * m) == 2 * r
  {
    assert (2 * m) * q == 2 * (m * q);
    DivModUnique(2 * x, q, 2 * m, 2 * r);
  }

  lemma Distribute(half: nat, bit: nat, rest: nat, scale: nat)
    ensures (half * bit + rest) * scale == (half * scale) * bit + rest * scale
  {
    assert (half * bit) * scale == (half * scale) * bit;
  }

  /** The digits' next value, and that it fits. */
  lemma NextValue(value: nat, bit: nat, rest: nat, half: nat, operand: nat, limit: nat)
    requires 0 < half && operand == value * (2 * half) + (half * bit + rest) && operand < limit
    ensures operand == (2 * value + bit) * half + rest && 2 * value + bit < limit
  {
    assert (2 * value + bit) * half == value * (2 * half) + half * bit;
    MultipleBounds(2 * value + bit, half);
  }

  lemma CountDown(n: nat, m: nat)
    requires n < m
    ensures (n + m - 1) % m == if n == 0 then m - 1 else n - 1
  {
    DivModUnique(n + m - 1, if n == 0 then 0 else 1, m, if n == 0 then m - 1 else n - 1);
  }

  /** With no bits left, the digits are those of the operand. */
  lemma Finished(bcd: seq<nat>, operand: nat, low: nat, p2s: nat, bits: nat)
    requires InProgress(bcd, operand, low, 0, p2s, bits)
    ensures bcd == Digits(operand, |bcd|)
  {
    hide Digits, Value, Decimal, Pow10;
    assert Pow2(0) == 1;
    DigitsUnique(bcd);
  }

  // ---------- Whole conversions ----------

  /** The digits after k steps. */
  function Shifting(bcd: seq<nat>, p2s: nat, bits: nat, k: nat): (d: seq<nat>)
    requires 0 < bits && p2s < Pow2(bits) && forall i :: 0 <= i < |bcd| ==> bcd[i] < 16
    ensures |d| == |bcd| && forall i :: 0 <= i < |d| ==> d[i] < 16
    decreases k
  {
    if k == 0 then bcd else Shifting(Shifted(bcd, TopBit(p2s, bits)), ShiftedLeft(p2s, bits), bits, k - 1)
  }

  function Zeros(n: nat): seq<nat> { seq(n, _ => 0) }

  /** The steps made until a counter of `digits` bits, which first holds n, is zero. */
  function StepsLeft(digits: nat, n: nat): nat { if n == 0 then Pow2(digits) else n }

  /** The digits of a whole conversion: the step count is cut to the counter. */
  function Converted(digits: nat, operand: nat): (d: seq<nat>)
    requires operand < Pow2(Bits(digits))
    ensures |d| == digits && forall i :: 0 <= i < |d| ==> d[i] < 16
  {
    Shifting(Zeros(digits), operand, Bits(digits), StepsLeft(digits, Bits(digits) % Pow2(digits)))
  }

  /** From four digits on, that is one step for every bit. */
  lemma StepsForAllBits(digits: nat)
    requires digits >= 4
    ensures Bits(digits) % Pow2(digits) == Bits(digits) == StepsLeft(digits, Bits(digits) % Pow2(digits))
  {
    CountFits(digits);
    DivModUnique(Bits(digits), 0, Pow2(digits), Bits(digits));
  }

  /** A conversion in progress ends with the digits of its operand. */
  lemma {:induction false} ShiftingConverts(bcd: seq<nat>, operand: nat, low: nat, n: nat, p2s: nat, bits: nat)
    requires InProgress(bcd, operand, low, n, p2s, bits)
    requires operand < Pow2(bits) <= Pow10(|bcd|) && 0 < bits
    requires p2s < Pow2(bits) && (forall i :: 0 <= i < |bcd| ==> bcd[i] < 16)
    ensures Shifting(bcd, p2s, bits, n) == Digits(operand, |bcd|)
    decreases n
  {
    hide InProgress, Shifted, ShiftedLeft, TopBit, Digits, Pow2, Pow10;
    if n == 0 {
      Finished(bcd, operand, low, p2s, bits);
    } else {
      StepInProgress(bcd, operand, low, n, p2s, bits);
      ShiftingConverts(Shifted(bcd, TopBit(p2s, bits)), operand, low % Pow2(n - 1), n - 1, ShiftedLeft(p2s, bits), bits);
    }
  }

  lemma {:induction false} ZeroDigits(n: nat)
    ensures Digits(0, n) == Zeros(n) && Value(Zeros(n)) == 0 && Shifted(Zeros(n), 0) == Zeros(n)
  {
    if n > 0 {
      ZeroDigits(n - 1);
      assert Zeros(n) == [0] + Zeros(n - 1);
      assert Zeros(n)[1..] == Zeros(n - 1);
    }
  }

  /** Zeros stay as long as no one has reached the top of the register. */
  lemma {:induction false} ShiftingZeros(digits: nat, p2s: nat, bits: nat, k: nat)
    requires 0 < bits && p2s < Pow2(bits)
    requires p2s == 0 || (k <= bits && p2s < Pow2(bits - k))
    ensures Shifting(Zeros(digits), p2s, bits, k) == Zeros(digits)
    decreases k
  {
    hide Shifted, Digits, Value;
    if k > 0 {
      ZeroDigits(digits);
      if p2s > 0 {
        Pow2Monotone(bits - k, bits - 1);
        Pow2Monotone(bits - k + 1, bits);
      }
      DivModUnique(p2s, 0, Pow2(bits - 1), p2s);
      DivModUnique(2 * p2s, 0, Pow2(bits), 2 * p2s);
      ShiftingZeros(digits, 2 * p2s, bits, k - 1);
    }
  }

  lemma ConvertsFromFour(digits: nat, operand: nat)
    requires digits >= 4 && operand < Pow2(Bits(digits))
    ensures Converted(digits, operand) == Digits(operand, digits)
  {
    hide Digits, Shifting, Pow10;
    var bits := Bits(digits);
    StepsForAllBits(digits);
    DigitsSuffice(digits);
    ZeroDigits(digits);
    assert Pow2(0) == 1;
    ShiftingConverts(Zeros(digits), operand, operand, bits, operand, bits);
  }

  /** With fewer digits the counter is too narrow for the steps: one ends as zeros. */
  lemma OneIsLost(digits: nat)
    requires 1 <= digits < 4
    ensures 1 < Pow2(Bits(digits)) && Converted(digits, 1) == Zeros(digits) != Digits(1, digits)
  {
    hide Shifting;
    assert Pow2(1) == 2 && Pow2(2) == 4 && Pow2(3) == 8;
    Pow2Monotone(1, Bits(digits));
    var k := StepsLeft(digits, Bits(digits) % Pow2(digits));
    assert k <= 3;
    Pow2Monotone(1, Bits(digits) - k);
    ShiftingZeros(digits, 1, Bits(digits), k);
    assert Zeros(digits)[0] == 0 && Digits(1, digits)[0] == 1;
  }

  /** Every operand is converted to its decimal digits exactly from four digits on. */
  lemma ConvertsAll(digits: nat)
    requires 1 <= digits
    ensures (forall x: nat :: x < Pow2(Bits(digits)) ==> Converted(digits, x) == Digits(x, digits)) <==> digits >= 4
  {
    hide Converted, Digits, Bits;
    if digits >= 4 {
      forall x: nat | x < Pow2(Bits(digits))
        ensures Converted(digits, x) == Digits(x, digits)
      {
        ConvertsFromFour(digits, x);
      }
    } else {
      OneIsLost(digits);
    }
  }

  class Converter {
    const digits: nat
    const width: nat
    var state: State
    var p2s: nat
    var n: nat
    var bcd: seq<nat>
    // The number being converted, or last converted.
    ghost var operand: nat

    ghost predicate Registers()
      reads this
    {
      && 1 <= digits && |bcd| == digits && (forall i :: 0 <= i < digits ==> bcd[i] < 16)
      && p2s < Pow2(Bits(digits)) && n < Pow2(digits)
    }

    /** The registers are in range, and the conversion is on track. */
    ghost predicate Valid()
      reads this
    {
      && Registers() && operand < Pow2(Bits(digits))
      && (if state.Op? then Shifting(bcd, p2s, Bits(digits), StepsLeft(digits, n)) else bcd) == Converted(digits, operand)
    }

    constructor (digits: nat, width: nat)
      requires 1 <= digits
      ensures Valid() && state.Idle? && this.digits == digits && this.width == width
    {
      this.digits, this.width := digits, width;
      state, p2s, n := Idle, 0, 0;
      bcd := Zeros(digits);
      operand := 0;
      new;
      ShiftingZeros(digits, 0, Bits(digits), StepsLeft(digits, Bits(digits) % Pow2(digits)));
    }

    /** Clocks left until ready, once start is low. */
    ghost function Remaining(): nat
      reads this
    {
      match state
      case Idle => 0
      case Done => 1
      case Op => StepsLeft(digits, n) + 1
    }

    /** Idle with start: loads the operand and the step count. */
    method Load(sign: bool, bin: nat)
      requires Valid() && bin < Pow2(width)
      modifies this
      ensures Valid() && state.Op? && p2s == operand == Loaded(digits, width, sign, bin)
      ensures n == Bits(digits) % Pow2(digits) && bcd == Zeros(digits)
    {
      hide Loaded, Shifting;
      p2s := Loaded(digits, width, sign, bin);
      state, bcd := Op, Zeros(digits);
      n := Bits(digits) % Pow2(digits);
      operand := p2s;
    }

    /** Op: shifts one bit into the digits and counts down, both at register width. */
    method Step()
      requires Valid() && state.Op?
      modifies this`state, this`p2s, this`n, this`bcd
      ensures Valid()
      ensures bcd == Shifted(old(bcd), TopBit(old(p2s), Bits(digits)))
      ensures p2s == ShiftedLeft(old(p2s), Bits(digits))
      ensures n == (old(n) + Pow2(digits) - 1) % Pow2(digits)
      ensures state == if n == 0 then Done else Op
      ensures Remaining() == old(Remaining()) - 1
    {
      hide Shifted, TopBit, ShiftedLeft, Pow2;
      var top := TopBit(p2s, Bits(digits));
      bcd := Shifted(bcd, top);
      p2s := ShiftedLeft(p2s, Bits(digits));
      CountDown(n, Pow2(digits));
      n := (n + Pow2(digits) - 1) % Pow2(digits);
      if n == 0 {
        state := Done;
      }
    }

    /** One clock edge.  `reset` clears all registers. */
    method Clock(reset: bool, start: bool, sign: bool, bin: nat)
      requires Valid() && bin < Pow2(width)
      modifies this
      ensures Valid()
      ensures reset ==> state.Idle? && p2s == 0 && n == 0 && bcd == Zeros(digits)
      ensures !reset && old(state).Idle? && !start ==> state.Idle? && bcd == old(bcd) && p2s == old(p2s) && n == old(n) && operand == old(operand)
      ensures !reset && old(state).Idle? && start ==>
                && state.Op? && p2s == operand == Loaded(digits, width, sign, bin)
                && n == Bits(digits) % Pow2(digits) && bcd == Zeros(digits)
      ensures !reset && old(state).Op? ==>
                && bcd == Shifted(old(bcd), TopBit(old(p2s), Bits(digits)))
                && p2s == ShiftedLeft(old(p2s), Bits(digits))
                && n == (old(n) + Pow2(digits) - 1) % Pow2(digits)
                && state == (if n == 0 then Done else Op) && operand == old(operand)
      ensures !reset && !old(state).Idle? ==> Remaining() == old(Remaining()) - 1
      ensures !reset && old(state).Done? ==> state.Idle? && bcd == old(bcd) && p2s == old(p2s) && n == old(n) && operand == old(operand)
    {
      if reset {
        state, p2s, n, bcd := Idle, 0, 0, Zeros(digits);
        operand := 0;
        ShiftingZeros(digits, 0, Bits(digits), StepsLeft(digits, Bits(digits) % Pow2(digits)));
      } else {
        match state
        case Idle => if start { Load(sign, bin); }
        case Op => Step();
        case Done => state := Idle;
      }
    }

    /** How the firmware uses the converter: raise start while it is ready, keep it up for any number
        of clocks, lower it, and wait until it is ready again.  Counts the clocks. */
    method Convert(sign: bool, bin: nat, held: nat) returns (clocks: nat)
      requires Valid() && state.Idle? && bin < Pow2(width)
      modifies this
      ensures Valid() && state.Idle? && operand == Loaded(digits, width, sign, bin)
      // The decimal digits, for every operand, exactly from four digits on (see ConvertsAll).
      ensures bcd == Converted(digits, operand)
      ensures digits >= 4 ==> bcd == Digits(operand, digits)
      // One load, the steps (3 * BCD_N + 1 of them from four digits on), and the done state.
      ensures held == 0 ==> clocks == 1 + StepsLeft(digits, Bits(digits) % Pow2(digits)) + 1
      ensures digits >= 4 ==> StepsLeft(digits, Bits(digits) % Pow2(digits)) == Bits(digits)
    {
      hide Digits, Loaded, Shifted, TopBit, ShiftedLeft, Shifting, Converted;
      Clock(false, true, sign, bin);
      clocks := 1;
      if digits >= 4 {
        StepsForAllBits(digits);
        ConvertsFromFour(digits, operand);
      }
      for i := 0 to held
        invariant Valid() && operand == Loaded(digits, width, sign, bin)
        invariant held == 0 ==> clocks == 1 && state.Op? && n == Bits(digits) % Pow2(digits)
      {
        Clock(false, true, sign, bin);
        clocks := clocks + 1;
      }
      while !state.Idle?
        invariant Valid() && operand == Loaded(digits, width, sign, bin)
        invariant held == 0 ==> clocks + Remaining() == 1 + StepsLeft(digits, Bits(digits) % Pow2(digits)) + 1
        decreases Remaining()
      {
        Clock(false, false, sign, bin);
        clocks := clocks + 1;
      }
    }
  }
}
