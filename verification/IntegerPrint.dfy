/** Printing integers: the log printf's conversions d, u, o, x and X with width and zero padding, and
    the small printf's x.

    The text is built by the code from the most significant digit down, using the largest power of the
    base; Numeral, built from the least significant digit up, is what it is compared with.
 */
module IntegerPrint {
  import opened Arithmetic

  const WRAP := 0x1_0000_0000
  const SIGN_BIT := 0x8000_0000

  /** The conversions, and the settings each stands for. */
  datatype Conversion = Decimal | Unsigned | Octal | LowerHex | UpperHex
  {
    function Base(): (b: nat)
      ensures 2 <= b <= 16
    {
      match this
      case Octal => 8
      case LowerHex => 16
      case UpperHex => 16
      case _ => 10
    }

    predicate IsSigned() { Decimal? }

    predicate Upper() { UpperHex? }
  }

  // ---------- Numerals ----------

  /** The digits of v, most significant first, without superfluous zeros. */
  function Numeral(v: nat, base: nat): (d: seq<nat>)
    requires base >= 2
    ensures |d| > 0 && forall i :: 0 <= i < |d| ==> d[i] < base
    decreases v
  {
    if v < base then [v] else
      Shrinks(v, base);
      Numeral(Quo(v, base), base) + [Rem(v, base)]
  }

  lemma Shrinks(v: nat, base: nat)
    requires base >= 2 && v > 0
    ensures Quo(v, base) < v
  {
    hide Quo, Rem;
    var q := Quo(v, base);
    QuoRem(v, base);
    MultipleBounds(q, base - 2);
    assert base * q == 2 * q + (base - 2) * q;
  }

  function DigitChar(d: nat, upper: bool): (c: char)
    requires d < 16
  {
    if d < 10 then '0' + d as char else (if upper then 'A' else 'a') + (d - 10) as char
  }

  lemma DigitTable(d: nat, upper: bool)
    requires d < 16
    ensures DigitChar(d, upper) == (if upper then "0123456789ABCDEF" else "0123456789abcdef")[d]
  {
  }

  /** The digit a character stands for, in either case. */
  function CharDigit(c: char): nat {
    if '0' <= c <= '9' then (c - '0') as nat
    else if 'a' <= c <= 'f' then (c - 'a') as nat + 10
    else if 'A' <= c <= 'F' then (c - 'A') as nat + 10
    else 16
  }

  function Text(d: seq<nat>, upper: bool): (t: string)
    requires forall i :: 0 <= i < |d| ==> d[i] < 16
    ensures |t| == |d| && forall i :: 0 <= i < |d| ==> t[i] == DigitChar(d[i], upper)
  {
    if d == [] then "" else Text(d[..|d| - 1], upper) + [DigitChar(d[|d| - 1], upper)]
  }

  /** Reads digits as a number. */
  function Parse(t: string, base: nat): nat {
    if t == "" then 0 else Parse(t[..|t| - 1], base) * base + CharDigit(t[|t| - 1])
  }

  lemma CharsAreDigits(d: nat, upper: bool)
    requires d < 16
    ensures CharDigit(DigitChar(d, upper)) == d && DigitChar(d, upper) != ' ' && DigitChar(d, upper) != '-'
    ensures DigitChar(d, upper) == '0' <==> d == 0
  {
  }

  /** A numeral reads back as its value. */
  lemma {:induction false} NumeralParses(v: nat, base: nat, upper: bool)
    requires 2 <= base <= 16
    ensures Parse(Text(Numeral(v, base), upper), base) == v
    decreases v
  {
    hide Text, Parse, CharDigit, DigitChar;
    if v < base {
      assert [] + [v] == [v];
      ParseSnoc([], v, base, upper);
      ParseEmpty(base, upper);
    } else {
      Shrinks(v, base);
      NumeralParses(Quo(v, base), base, upper);
      ParseSnoc(Numeral(Quo(v, base), base), Rem(v, base), base, upper);
      QuoRem(v, base);
    }
  }

  lemma ParseEmpty(base: nat, upper: bool)
    ensures Parse(Text([], upper), base) == 0
  {
  }

  lemma ParseSnoc(d: seq<nat>, last: nat, base: nat, upper: bool)
    requires (forall i :: 0 <= i < |d| ==> d[i] < 16) && last < 16
    ensures Parse(Text(d + [last], upper), base) == Parse(Text(d, upper), base) * base + last
  {
    hide CharDigit, DigitChar;
    CharsAreDigits(last, upper);
    assert (d + [last])[..|d|] == d;
    var t := Text(d + [last], upper);
    assert t == Text(d, upper) + [DigitChar(last, upper)];
    assert t[..|t| - 1] == Text(d, upper);
  }

  /** Only zero starts with a zero. */
  lemma {:induction false} NoLeadingZero(v: nat, base: nat)
    requires base >= 2
    ensures Numeral(v, base)[0] == 0 <==> v == 0
    decreases v
  {
    if v >= base {
      Shrinks(v, base);
      NoLeadingZero(Quo(v, base), base);
      Quotient(v, base);
    }
  }

  // ---------- Top-down digits ----------

  /** The k digits of v from the top: what dividing by falling powers of the base gives. */
  function TopDown(v: nat, k: nat, base: nat): (d: seq<nat>)
    requires base >= 2
    ensures |d| == k
    decreases k
  {
    if k == 0 then [] else [Quo(v, Pow(base, k - 1))] + TopDown(Rem(v, Pow(base, k - 1)), k - 1, base)
  }

  lemma TopDownOne(v: nat, base: nat)
    requires base >= 2
    ensures TopDown(v, 1, base) == [v]
  {
    PowZero(base);
    QuoRemUnique(v, v, 1, 0);
    assert TopDown(v, 1, base) == [Quo(v, Pow(base, 0))] + TopDown(Rem(v, Pow(base, 0)), 0, base);
  }

  /** The same digits from the bottom. */
  lemma {:induction false} TopDownSnoc(v: nat, k: nat, base: nat)
    requires base >= 2 && 2 <= k
    ensures TopDown(v, k, base) == TopDown(Quo(v, base), k - 1, base) + [Rem(v, base)]
    decreases k
  {
    hide Pow, Quo, Rem;
    var p, m := Pow(base, k - 2), Pow(base, k - 1);
    PowNext(base, k - 2);
    Regroup(v, p, base, m);
    assert TopDown(v, k, base) == [Quo(v, m)] + TopDown(Rem(v, m), k - 1, base);
    assert TopDown(Quo(v, base), k - 1, base) == [Quo(Quo(v, base), p)] + TopDown(Rem(Quo(v, base), p), k - 2, base);
    if k == 2 {
      PowZero(base);
      TopDownOne(Rem(v, m), base);
    } else {
      TopDownSnoc(Rem(v, m), k - 1, base);
    }
  }

  lemma PowNext(base: nat, n: nat)
    requires base > 0
    ensures Pow(base, n + 1) == base * Pow(base, n)
  {
  }

  lemma PowZero(base: nat)
    ensures Pow(base, 0) == 1 && Pow(base, 1) == base
  {
    assert Pow(base, 1) == base * Pow(base, 0);
  }

  /** Quotients and remainders by m = base * p, and by base and then p. */
  lemma Regroup(v: nat, p: nat, base: nat, m: nat)
    requires 0 < p && 0 < base && m == base * p && 0 < m
    ensures Quo(v, m) == Quo(Quo(v, base), p)
    ensures Quo(Rem(v, m), base) == Rem(Quo(v, base), p)
    ensures Rem(Rem(v, m), base) == Rem(v, base)
    ensures m == base ==> Rem(v, m) == Rem(v, base)
  {
    hide Quo, Rem;
    var rest, b := Quo(v, base), Rem(v, base);
    var q, a := Quo(rest, p), Rem(rest, p);
    QuoRem(v, base);
    QuoRem(rest, p);
    SplitProduct(base, p, q, a);
    BelowProduct(base, p, a, b);
    QuoRemUnique(v, q, m, base * a + b);
    QuoRemUnique(base * a + b, a, base, b);
  }

  lemma SplitProduct(base: nat, p: nat, q: nat, a: nat)
    ensures base * (p * q + a) == (base * p) * q + base * a
  {
    assert base * (p * q) == (base * p) * q;
  }

  lemma BelowProduct(base: nat, p: nat, a: nat, b: nat)
    requires a < p && b < base
    ensures base * a + b < base * p
  {
    MultipleBounds(base, p - 1 - a);
    assert base * (p - 1 - a) == base * p - base - base * a;
  }

  /** How many digits v has. */
  ghost predicate HasDigits(v: nat, k: nat, base: nat) {
    1 <= k && v < Pow(base, k) && (k == 1 || Pow(base, k - 1) <= v)
  }

  /** Top down or bottom up, the numeral is the same. */
  lemma {:induction false} TopDownIsNumeral(v: nat, k: nat, base: nat)
    requires base >= 2 && HasDigits(v, k, base)
    ensures TopDown(v, k, base) == Numeral(v, base)
    decreases k
  {
    hide Pow;
    if k == 1 {
      PowZero(base);
      TopDownOne(v, base);
    } else {
      var p := Pow(base, k - 2);
      PowNext(base, k - 2);
      PowNext(base, k - 1);
      PowZero(base);
      MultipleBounds(base, p);
      Divided(v, base, p);
      Divided(v, base, base * p);
      AtLeast(base, p);
      TopDownSnoc(v, k, base);
      TopDownIsNumeral(Quo(v, base), k - 1, base);
    }
  }

  lemma AtLeast(base: nat, p: nat)
    requires 0 < p
    ensures base <= base * p
  {
    MultipleBounds(base, p - 1);
    assert base * p == base + base * (p - 1);
  }

  /** Dividing by the base moves v between powers of the base. */
  lemma Divided(v: nat, base: nat, p: nat)
    requires 0 < base && 0 < p
    ensures v < base * p ==> Quo(v, base) < p
    ensures base * p <= v ==> p <= Quo(v, base)
  {
    hide Quo, Rem;
    var q := Quo(v, base);
    QuoRem(v, base);
    MultipleBounds(base, q - p);
    MultipleBounds(base, p - q - 1);
    assert base * (q - p) == base * q - base * p;
    assert base * (p - q - 1) == base * p - base * q - base;
  }

  // ---------- The printed field ----------

  function Negative(value: nat, conv: Conversion): bool {
    conv.IsSigned() && value >= SIGN_BIT
  }

  /** The number a 32-bit argument stands for under a conversion. */
  function Meaning(value: nat, conv: Conversion): int {
    if Negative(value, conv) then value - WRAP else value
  }

  function Magnitude(value: nat, conv: Conversion): (m: nat)
    requires value < WRAP
    ensures m == (if Meaning(value, conv) < 0 then -Meaning(value, conv) else Meaning(value, conv)) < WRAP
  {
    if Negative(value, conv) then WRAP - value else value
  }

  function Repeat(c: char, n: int): (s: string)
    ensures |s| == if n > 0 then n else 0
    ensures forall i :: 0 <= i < |s| ==> s[i] == c
  {
    seq(if n > 0 then n else 0, _ => c)
  }

  /** What stands before the digits: the sign, with zeros behind it or spaces before it. */
  function Lead(negative: bool, zeroPad: bool, pad: int): string {
    var sign := if negative then "-" else "";
    if zeroPad then sign + Repeat('0', pad) else Repeat(' ', pad) + sign
  }

  /** The digits, the sign before them, and padding to the width: zeros between sign and digits, or
      spaces before the sign. */
  function Field(value: nat, conv: Conversion, zeroPad: bool, width: int): string
    requires value < WRAP
  {
    var body := Text(Numeral(Magnitude(value, conv), conv.Base()), conv.Upper());
    Lead(Negative(value, conv), zeroPad, width - |body| - if Negative(value, conv) then 1 else 0) + body
  }

  /** Reads a printed field as a number. */
  function ParseField(t: string, base: nat): int {
    if t == "" then 0
    else if t[0] == ' ' then ParseField(t[1..], base)
    else if t[0] == '-' then 0 - Parse(t[1..], base)
    else Parse(t, base)
  }

  /** The field is as wide as asked for, or as its content needs. */
  lemma FieldWidth(value: nat, conv: Conversion, zeroPad: bool, width: int)
    requires value < WRAP
    ensures var needed := |Numeral(Magnitude(value, conv), conv.Base())| + if Meaning(value, conv) < 0 then 1 else 0;
            |Field(value, conv, zeroPad, width)| == if width > needed then width else needed
  {
  }

  /** It reads back as the number, whatever the padding. */
  lemma FieldParses(value: nat, conv: Conversion, zeroPad: bool, width: int)
    requires value < WRAP
    ensures ParseField(Field(value, conv, zeroPad, width), conv.Base()) == Meaning(value, conv)
  {
    hide Numeral, Text, Parse, ParseField, DigitChar, CharDigit;
    var base, m := conv.Base(), Magnitude(value, conv);
    var d := Numeral(m, base);
    var body := Text(d, conv.Upper());
    var sign := if Negative(value, conv) then "-" else "";
    var pad := width - |body| - |sign|;
    NumeralParses(m, base, conv.Upper());
    CharsAreDigits(d[0], conv.Upper());
    if zeroPad {
      ParseZeros(Repeat('0', pad), body, base);
      ParseSign(Negative(value, conv), Repeat('0', pad) + body, base);
      assert sign + Repeat('0', pad) + body == sign + (Repeat('0', pad) + body);
    } else {
      ParseSign(Negative(value, conv), body, base);
      SkipSpaces(pad, sign + body, base);
      assert Repeat(' ', pad) + (sign + body) == Repeat(' ', pad) + sign + body;
    }
  }

  lemma ParseSign(negative: bool, t: string, base: nat)
    requires t != "" && t[0] != ' ' && t[0] != '-'
    ensures ParseField((if negative then "-" else "") + t, base) == if negative then 0 - Parse(t, base) else Parse(t, base)
  {
    hide Parse;
    if negative {
      assert ("-" + t)[1..] == t;
    } else {
      assert "" + t == t;
    }
  }

  lemma {:induction false} SkipSpaces(n: int, t: string, base: nat)
    ensures ParseField(Repeat(' ', n) + t, base) == ParseField(t, base)
  {
    var s := Repeat(' ', n) + t;
    if n > 0 {
      assert s[1..] == Repeat(' ', n - 1) + t;
      SkipSpaces(n - 1, t, base);
    } else {
      assert s == t;
    }
  }

  lemma {:induction false} ParseZeros(zeros: string, t: string, base: nat)
    requires forall i :: 0 <= i < |zeros| ==> zeros[i] == '0'
    ensures Parse(zeros + t, base) == Parse(t, base)
  {
    var s := zeros + t;
    if t != "" {
      ParseZeros(zeros, t[..|t| - 1], base);
      assert s[..|s| - 1] == zeros + t[..|t| - 1];
    } else if zeros != "" {
      ParseZeros(zeros[..|zeros| - 1], t, base);
      assert s[..|s| - 1] == zeros[..|zeros| - 1] + t;
      assert Parse(s, base) == Parse(s[..|s| - 1], base) * base + 0;
      assert Parse(t, base) == 0;
    } else {
      assert s == t;
    }
  }

  lemma TextSnoc(d: seq<nat>, last: nat, upper: bool)
    requires (forall i :: 0 <= i < |d| ==> d[i] < 16) && last < 16
    ensures Text(d + [last], upper) == Text(d, upper) + [DigitChar(last, upper)]
  {
    assert (d + [last])[..|d|] == d;
  }

  // ---------- What the text is, conversion by conversion ----------

  /** The number that the C library's conversions give a 32-bit argument. */
  ghost predicate ReadsAs(out: string, value: nat, conv: Conversion) {
    match conv
    case Decimal => ParseField(out, 10) == if value < 0x8000_0000 then value else value - 0x1_0000_0000
    case Unsigned => ParseField(out, 10) == value
    case Octal => ParseField(out, 8) == value
    case LowerHex => ParseField(out, 16) == value
    case UpperHex => ParseField(out, 16) == value
  }

  predicate NoLetters(out: string, first: char, last: char) {
    forall i :: 0 <= i < |out| ==> !(first <= out[i] <= last)
  }

  /** The text of every conversion reads back as the argument in the conversion's base, with letters of
      its case only. */
  lemma FieldReads(value: nat, conv: Conversion, zeroPad: bool, width: int)
    requires value < WRAP
    ensures ReadsAs(Field(value, conv, zeroPad, width), value, conv)
    ensures conv.UpperHex? ==> NoLetters(Field(value, conv, zeroPad, width), 'a', 'f')
    ensures !conv.UpperHex? ==> NoLetters(Field(value, conv, zeroPad, width), 'A', 'F')
  {
    FieldParses(value, conv, zeroPad, width);
    FieldCase(value, conv, zeroPad, width);
  }

  lemma FieldCase(value: nat, conv: Conversion, zeroPad: bool, width: int)
    requires value < WRAP
    ensures if conv.UpperHex? then NoLetters(Field(value, conv, zeroPad, width), 'a', 'f')
            else NoLetters(Field(value, conv, zeroPad, width), 'A', 'F')
  {
    hide Numeral, Text, Lead, ParseField, Parse;
    var body := Text(Numeral(Magnitude(value, conv), conv.Base()), conv.Upper());
    var lead := Lead(Negative(value, conv), zeroPad, width - |body| - if Negative(value, conv) then 1 else 0);
    LeadChars(Negative(value, conv), zeroPad, width - |body| - if Negative(value, conv) then 1 else 0);
    assert Field(value, conv, zeroPad, width) == lead + body;
  }

  /** Zeros or spaces, and the sign on the right side of them. */
  lemma LeadChars(negative: bool, zeroPad: bool, pad: int)
    ensures var lead := Lead(negative, zeroPad, pad);
            && (forall i :: 0 <= i < |lead| ==> lead[i] == if zeroPad then (if negative && i == 0 then '-' else '0')
                                                           else (if negative && i == |lead| - 1 then '-' else ' '))
  {
  }

  /** Zero padding leaves no space; without it no zero stands before the first other digit, except for
      zero itself. */
  lemma FieldPadding(value: nat, conv: Conversion, zeroPad: bool, width: int)
    requires value < WRAP
    ensures var out := Field(value, conv, zeroPad, width);
            && (zeroPad ==> forall i :: 0 <= i < |out| ==> out[i] != ' ')
            && (!zeroPad && value != 0 ==>
                  forall i :: 0 <= i < |out| && out[i] == '0' ==> exists j :: 0 <= j < i && out[j] !in " -0")
  {
    hide Numeral, Text, Lead, ParseField, Parse;
    var d := Numeral(Magnitude(value, conv), conv.Base());
    var body := Text(d, conv.Upper());
    var pad := width - |body| - if Negative(value, conv) then 1 else 0;
    var lead := Lead(Negative(value, conv), zeroPad, pad);
    var out := Field(value, conv, zeroPad, width);
    assert out == lead + body;
    LeadChars(Negative(value, conv), zeroPad, pad);
    NoLeadingZero(Magnitude(value, conv), conv.Base());
    if !zeroPad && value != 0 {
      assert out[|lead|] == body[0] == DigitChar(d[0], conv.Upper());
      forall i | 0 <= i < |out| && out[i] == '0'
        ensures exists j :: 0 <= j < i && out[j] !in " -0"
      {
        assert out[|lead|] !in " -0";
      }
    }
  }

  // ---------- The code ----------

  /** Digit counting: the number of digits, and the largest power of the base not above v. */
  method CountDigits(v: nat, base: nat) returns (count: nat, p: nat)
    requires v < WRAP && 2 <= base <= 16
    ensures HasDigits(v, count, base) && p == Pow(base, count - 1)
  {
    hide Pow, Quo;
    PowZero(base);
    var vShrink := Quo(v, base);
    count, p := 1, 1;
    while vShrink > 0
      invariant 1 <= count && p == Pow(base, count - 1) && (count == 1 || p <= v)
      invariant 0 < p && 0 < Pow(base, count) && vShrink == Quo(v, Pow(base, count))
      decreases vShrink
    {
      OneMoreDigit(v, base, count, p);
      count := count + 1;
      p := p * base % WRAP;
      vShrink := Quo(vShrink, base);
    }
    Quotient(v, Pow(base, count));
  }

  /** Another division leaves something: the next power is still not above v. */
  lemma OneMoreDigit(v: nat, base: nat, count: nat, p: nat)
    requires 2 <= base && 1 <= count && p == Pow(base, count - 1) && 0 < p && v < WRAP
    requires 0 < Pow(base, count) && Quo(v, Pow(base, count)) > 0
    ensures p * base % WRAP == Pow(base, count) <= v
    ensures 0 < Pow(base, count + 1)
    ensures Quo(Quo(v, Pow(base, count)), base) == Quo(v, Pow(base, count + 1)) < Quo(v, Pow(base, count))
  {
    PowNext(base, count - 1);
    PowNext(base, count);
    hide Pow, Quo, Rem;
    var m := Pow(base, count);
    Quotient(v, m);
    Shrinks(Quo(v, m), base);
    DivModUnique(p * base, 0, WRAP, p * base);
    MultipleBounds(base, m);
    Regroup(v, base, m, m * base);
  }

  lemma Quotient(v: nat, m: nat)
    requires 0 < m
    ensures Quo(v, m) > 0 <==> m <= v
  {
    hide Quo, Rem;
    QuoRem(v, m);
    MultipleBounds(m, Quo(v, m));
  }

  /** The leading characters, the sign and the digits of an integer conversion. */
  method PrintField(value: nat, conv: Conversion, zeroPad: bool, width: int) returns (out: string)
    requires value < WRAP
    ensures out == Field(value, conv, zeroPad, width)
  {
    hide Pow, Text, Numeral, DigitChar, Lead, TopDown, Repeat, HasDigits;
    var v, sign := value, false;
    var base := conv.Base();
    if conv.IsSigned() && value >= SIGN_BIT {
      v, sign := (WRAP - 1 - value + 1) % WRAP, true;
    }
    var count, p := CountDigits(v, base);
    out := PrintLead(sign, zeroPad, width - count);
    TopDownIsNumeral(v, count, base);
    var digits := PrintDigits(v, base, conv.Upper(), count, p);
    out := out + digits;
  }

  /** An integer conversion. */
  method PrintInteger(value: nat, conv: Conversion, zeroPad: bool, width: int) returns (out: string)
    requires value < WRAP
    ensures out == Field(value, conv, zeroPad, width)
    // It reads back as the argument, in the conversion's base and case.
    ensures ReadsAs(out, value, conv)
    ensures if conv.UpperHex? then NoLetters(out, 'a', 'f') else NoLetters(out, 'A', 'F')
    // Padding goes to the width asked for, with zeros or with spaces.
    ensures |out| >= width
    ensures zeroPad ==> forall i :: 0 <= i < |out| ==> out[i] != ' '
    ensures !zeroPad && value != 0 ==>
              forall i :: 0 <= i < |out| && out[i] == '0' ==> exists j :: 0 <= j < i && out[j] !in " -0"
  {
    hide Field, ReadsAs, NoLetters;
    FieldReads(value, conv, zeroPad, width);
    FieldPadding(value, conv, zeroPad, width);
    FieldWidth(value, conv, zeroPad, width);
    out := PrintField(value, conv, zeroPad, width);
  }

  /** The leading characters and the sign; `before` is the width less the number of digits. */
  method PrintLead(sign: bool, zeroPad: bool, before: int) returns (out: string)
    ensures out == Lead(sign, zeroPad, before - if sign then 1 else 0)
  {
    var left := before;
    if zeroPad {
      out := if sign then "-" else "";
      if sign { left := left - 1; }
      out := out + Repeat('0', left);
    } else {
      if sign { left := left - 1; }
      out := Repeat(' ', left);
      if sign { out := out + "-"; }
    }
  }

  /** The digit loop: divides by falling powers of the base. */
  method PrintDigits(v: nat, base: nat, upper: bool, ghost count: nat, p0: nat) returns (out: string)
    requires 2 <= base <= 16 && HasDigits(v, count, base) && p0 == Pow(base, count - 1)
    ensures (forall i :: 0 <= i < count ==> TopDown(v, count, base)[i] < 16) && out == Text(TopDown(v, count, base), upper)
  {
    hide Pow, DigitChar, Text, Numeral, Quo, Rem;
    TextEmpty(upper);
    out := "";
    var rest: nat, p: nat := v, p0;
    ghost var left: nat, done: seq<nat> := count, [];
    TopDownIsNumeral(v, count, base);
    while p > 0
      invariant left <= count && p == if left == 0 then 0 else Pow(base, left - 1)
      invariant rest < Pow(base, left)
      invariant (forall i :: 0 <= i < |done| ==> done[i] < 16) && out == Text(done, upper)
      invariant done + TopDown(rest, left, base) == TopDown(v, count, base)
      decreases left
    {
      NextDigit(rest, left, base);
      var d := Quo(rest, p);
      TextSnoc(done, d, upper);
      out := out + [DigitChar(d, upper)];
      done := done + [d];
      rest := Rem(rest, p);
      p := Quo(p, base);
      left := left - 1;
    }
  }

  /** The next digit is below the base, and the next power is the present one divided by the base. */
  lemma NextDigit(rest: nat, left: nat, base: nat)
    requires base >= 2 && 0 < left && rest < Pow(base, left)
    ensures Pow(base, left - 1) > 0 && Quo(rest, Pow(base, left - 1)) < base
    ensures Quo(Pow(base, left - 1), base) == if left == 1 then 0 else Pow(base, left - 2)
  {
    hide Pow, Quo, Rem;
    PowNext(base, left - 1);
    Divided(rest, Pow(base, left - 1), base);
    if left == 1 {
      PowZero(base);
      QuoRemUnique(1, 0, base, 1);
    } else {
      PowNext(base, left - 2);
      QuoRemUnique(Pow(base, left - 1), Pow(base, left - 2), base, 0);
    }
  }

  // ---------- The small printf ----------

  /** The hexadecimal digit k places from the right. */
  function Nibble(v: nat, k: nat): (d: nat)
    ensures d < 16
  {
    Rem(Quo(v, Pow(16, k)), 16)
  }

  /** The x conversion of alt_printf: finds the first non-zero digit, then masks out digit by digit.
      `shift` counts in digits of four bits. */
  method PrintHex(v: nat) returns (out: string)
    requires v < WRAP
    ensures out == Text(Numeral(v, 16), false)
    ensures Parse(out, 16) == v && NoLetters(out, 'A', 'F')
    ensures out != "" && (out[0] == '0' <==> v == 0)
  {
    NumeralParses(v, 16, false);
    NoLeadingZero(v, 16);
    hide Pow, DigitChar, Nibble, Text, Numeral, TopDown;
    if v == 0 {
      HexZero();
      return [DigitChar(0, false)];
    }
    WordIsEightDigits();
    var shift: nat := 7;
    while Nibble(v, shift) == 0
      invariant v < Pow(16, shift + 1)
      decreases shift
    {
      HexPlaces(v, shift);
      shift := shift - 1;
    }
    HexPlaces(v, shift);
    TopDownIsNumeral(v, shift + 1, 16);
    out := PrintNibbles(v, shift + 1);
  }

  /** The loop over the last `count` digits. */
  method PrintNibbles(v: nat, count: nat) returns (out: string)
    requires HasDigits(v, count, 16)
    ensures (forall i :: 0 <= i < count ==> TopDown(v, count, 16)[i] < 16) && out == Text(TopDown(v, count, 16), false)
  {
    hide Pow, DigitChar, Nibble, Text, Numeral;
    TopDownIsNumeral(v, count, 16);
    QuoRemUnique(v, 0, Pow(16, count), v);
    out := "";
    ghost var done: seq<nat> := [];
    TextEmpty(false);
    var shift: int := count - 1;
    while shift >= 0
      invariant -1 <= shift < count
      invariant (forall i :: 0 <= i < |done| ==> done[i] < 16) && out == Text(done, false)
      invariant done + TopDown(Rem(v, Pow(16, shift + 1)), shift + 1, 16) == TopDown(v, count, 16)
      decreases shift + 1
    {
      MaskedDigit(v, shift);
      var digit := Nibble(v, shift);
      TextSnoc(done, digit, false);
      out := out + [DigitChar(digit, false)];
      done := done + [digit];
      shift := shift - 1;
    }
  }

  lemma TextEmpty(upper: bool)
    ensures Text([], upper) == ""
  {
  }

  lemma HexZero()
    ensures Text(Numeral(0, 16), false) == [DigitChar(0, false)]
  {
    TextEmpty(false);
    assert [0][..0] == [];
  }

  lemma WordIsEightDigits()
    ensures Pow(16, 8) == WRAP
  {
    assert Pow(16, 2) == 256;
    assert Pow(16, 4) == 256 * Pow(16, 2);
    assert Pow(16, 6) == 256 * Pow(16, 4);
    assert Pow(16, 8) == 256 * Pow(16, 6);
  }

  /** A zero digit at the top drops a place; a non-zero one fixes the number of digits. */
  lemma HexPlaces(v: nat, k: nat)
    requires v < Pow(16, k + 1)
    ensures Nibble(v, k) == 0 && v != 0 ==> k > 0 && v < Pow(16, k)
    ensures Nibble(v, k) != 0 ==> HasDigits(v, k + 1, 16)
  {
    hide DigitChar;
    PowNext(16, k);
    PowZero(16);
    hide Pow, Quo, Rem;
    var p := Pow(16, k);
    Divided(v, p, 16);
    QuoRemUnique(Quo(v, p), 0, 16, Quo(v, p));
    Quotient(v, p);
  }

  /** Masking out a digit is dividing what the digits above leave. */
  lemma MaskedDigit(v: nat, k: nat)
    ensures TopDown(Rem(v, Pow(16, k + 1)), k + 1, 16) == [Nibble(v, k)] + TopDown(Rem(v, Pow(16, k)), k, 16)
  {
    PowNext(16, k);
    var p, m := Pow(16, k), Pow(16, k + 1);
    hide Pow, Quo, Rem;
    Regroup(v, 16, p, m);
  }

  /** On plain x both printfs print the same. */
  lemma BothPrintfsAgree(v: nat)
    requires v < WRAP
    ensures Field(v, LowerHex, false, -1) == Text(Numeral(v, 16), false)
  {
    hide Numeral, Text;
    var body := Text(Numeral(v, 16), false);
    assert Repeat(' ', -1 - |body|) == "";
    assert "" + "" + body == body;
  }
}
