/** The digital readouts: a magnitude goes through the BCD converter into four digits, and these are
    laid out on five seven-segment cells.  What a cell stores is the encoder's segment pattern; what
    is proved is what somebody reading the segments from left to right sees.
 */
module Readout {
  import opened Arithmetic
  import opened Bin2Bcd

  const SSEG_MAX := 20
  const READOUT_DIGITS := 5
  const BCD_MAX := 4

  // Fields of the write command: value, point, sign, enable, cell address, write strobe.
  const SSEG_DP := 16
  const SSEG_SIGN := 32
  const SSEG_VAL_EN := 64
  const SSEG_SEL := 128
  const SSEG_WR := 4096

  // ---------- The segment encoder ----------

  const BLANK := 0
  const BAR := 64

  /** Segments g to a of a hexadecimal digit. */
  function Glyph(num: nat): (g: nat)
    requires num < 16
    ensures g != BLANK && g != BAR && g < 128
  {
    [63, 6, 91, 79, 102, 109, 125, 7, 127, 111, 119, 124, 88, 94, 121, 113][num]
  }

  /** Which digits light which segment, a (the top bar) to g (the middle one). */
  lemma Segments(digit: nat)
    requires digit < 16
    ensures Glyph(digit) % 2 == 1 <==> digit !in {1, 4, 0xb, 0xc, 0xd}
    ensures Glyph(digit) / 2 % 2 == 1 <==> digit !in {5, 6, 0xb, 0xc, 0xe, 0xf}
    ensures Glyph(digit) / 4 % 2 == 1 <==> digit !in {2, 0xc, 0xe, 0xf}
    ensures Glyph(digit) / 8 % 2 == 1 <==> digit !in {1, 4, 7, 0xa, 0xf}
    ensures Glyph(digit) / 16 % 2 == 1 <==> digit !in {1, 3, 4, 5, 7, 9}
    ensures Glyph(digit) / 32 % 2 == 1 <==> digit !in {1, 2, 3, 7, 0xc, 0xd}
    ensures Glyph(digit) / 64 % 2 == 1 <==> digit !in {0, 1, 7}
  {
  }

  /** A disabled cell is dark, its point included; a sign is the middle bar, whatever the digit. */
  lemma DarkOrBar(sign: bool, dp: bool, num: nat)
    requires num < 16
    ensures Encode(false, sign, dp, num) == 0
    ensures Encode(true, true, dp, num) == if dp then 128 + 64 else 64
    ensures Encode(true, false, dp, num) == (if dp then 128 else 0) + Glyph(num)
  {
  }

  /** The pattern for one command; the top bit is the decimal point. */
  function Encode(en: bool, sign: bool, dp: bool, num: nat): (hex: nat)
    requires num < 16
    ensures hex < 256
  {
    (if dp && en then 128 else 0) + (if !en then BLANK else if sign then BAR else Glyph(num))
  }

  /** A command word, its fields disjoint. */
  function Command(addr: nat, flags: nat, val: nat): nat {
    SSEG_WR + addr % 32 * SSEG_SEL + flags + val % 16
  }

  /** What the panel stores for a command word. */
  function Stored(command: nat): nat {
    Encode(command / SSEG_VAL_EN % 2 == 1, command / SSEG_SIGN % 2 == 1, command / SSEG_DP % 2 == 1, command % 16)
  }

  /** A command reaches the cell it addresses, with the fields it was packed from. */
  lemma CommandFields(addr: nat, en: bool, sign: bool, dp: bool, val: nat)
    requires addr < SSEG_MAX && val < 16
    ensures var flags := (if en then SSEG_VAL_EN else 0) + (if sign then SSEG_SIGN else 0) + (if dp then SSEG_DP else 0);
            var c := Command(addr, flags, val);
            && c / SSEG_SEL % 32 == addr && Stored(c) == Encode(en, sign, dp, val)
            // On the wires: strobe, address, enable, sign, point, value.
            && c / 4096 == 1 && c / 128 % 32 == addr && c % 16 == val
            && (c / 64 % 2 == 1 <==> en) && (c / 32 % 2 == 1 <==> sign) && (c / 16 % 2 == 1 <==> dp)
  {
    hide Encode;
    var e, s, d := if en then 1 else 0, if sign then 1 else 0, if dp then 1 else 0;
    DivModUnique(addr, 0, 32, addr);
    DivModUnique(32 + addr, 1, 32, addr);
    DivModUnique(val, 0, 16, val);
    assert Command(addr, 64 * e + 32 * s + 16 * d, val) == 128 * (32 + addr) + 64 * e + 32 * s + 16 * d + val;
    Fields(32 + addr, e, s, d, val);
  }

  lemma Fields(top: nat, e: nat, s: nat, d: nat, val: nat)
    requires e < 2 && s < 2 && d < 2 && val < 16
    ensures var c := 128 * top + 64 * e + 32 * s + 16 * d + val;
            c / 128 == top && c / 64 % 2 == e && c / 32 % 2 == s && c / 16 % 2 == d && c % 16 == val
  {
    DivModUnique(128 * top + 64 * e + 32 * s + 16 * d + val, top, 128, 64 * e + 32 * s + 16 * d + val);
    BitField(top, e, 64, 32 * s + 16 * d + val);
    BitField(2 * top + e, s, 32, 16 * d + val);
    BitField(4 * top + 2 * e + s, d, 16, val);
    DivModUnique(128 * top + 64 * e + 32 * s + 16 * d + val, 8 * top + 4 * e + 2 * s + d, 16, val);
  }

  lemma BitField(above: nat, bit: nat, m: nat, below: nat)
    requires bit < 2 && below < m
    ensures (m * (2 * above + bit) + below) / m % 2 == bit
  {
    DivModUnique(m * (2 * above + bit) + below, 2 * above + bit, m, below);
    DivModUnique(2 * above + bit, above, 2, bit);
  }

  // ---------- Reading the cells ----------

  /** What has been read so far: a sign, the digits as one number, and the decimal point if seen with
      the number of digits behind it. */
  datatype Reading = Reading(negative: bool, mantissa: nat, point: bool, decimals: nat)

  const NOTHING := Reading(false, 0, false, 0)

  /** The digit a glyph shows. */
  function DigitOf(segments: nat): nat {
    if segments == 63 then 0 else if segments == 6 then 1 else if segments == 91 then 2 else if segments == 79 then 3
    else if segments == 102 then 4 else if segments == 109 then 5 else if segments == 125 then 6 else if segments == 7 then 7
    else if segments == 127 then 8 else 9
  }

  /** Reads one more cell: a blank adds nothing, a bar is a minus sign, a glyph is a digit. */
  function ReadCell(r: Reading, cell: nat): Reading {
    var segments := cell % 128;
    if segments == BLANK then r
    else if segments == BAR then r.(negative := true)
    else r.(mantissa := 10 * r.mantissa + DigitOf(segments),
            decimals := if r.point then r.decimals + 1 else 0,
            point := r.point || cell >= 128)
  }

  function ReadCells(cells: seq<nat>): Reading {
    if cells == [] then NOTHING else ReadCell(ReadCells(cells[..|cells| - 1]), cells[|cells| - 1])
  }

  // ---------- Layout ----------

  /** How many leading zeros are blanked: at most two, so that the units and tenths stay. */
  function LeadingZeros(bcd: seq<nat>): (z: nat)
    requires |bcd| == BCD_MAX
    ensures z <= BCD_MAX - 2
  {
    if bcd[0] != 0 then 0 else if bcd[1] != 0 then 1 else 2
  }

  /** Cell i of a readout, 1 <= i <= 4. */
  function CellAt(bcd: seq<nat>, negative: bool, i: nat): nat
    requires |bcd| == BCD_MAX && (forall k :: 0 <= k < BCD_MAX ==> bcd[k] < 16)
    requires 1 <= i < READOUT_DIGITS
  {
    if negative && i == 1 then Encode(true, true, false, 0)
    else
      var j := if negative then i - 2 else i - 1;
      if j < LeadingZeros(bcd) then BLANK
      else Encode(true, false, i == (if negative then READOUT_DIGITS - 1 else READOUT_DIGITS - 2), bcd[j])
  }

  /** The three kinds of cells that drawing writes. */
  lemma Cells(bcd: seq<nat>, negative: bool)
    requires |bcd| == BCD_MAX && (forall k :: 0 <= k < BCD_MAX ==> bcd[k] < 16)
    ensures negative ==> CellAt(bcd, negative, 1) == Encode(true, true, false, 0)
    ensures var shift := if negative then 2 else 1;
            forall i :: shift <= i < READOUT_DIGITS ==>
              CellAt(bcd, negative, i) == if i - shift < LeadingZeros(bcd) then Encode(false, false, false, 0)
                else Encode(true, false, i == shift + READOUT_DIGITS - 3, bcd[i - shift])
  {
    hide Glyph;
  }

  /** Which cells are blank: those of leading zeros before the units. */
  lemma OnlyLeadingZerosBlank(bcd: seq<nat>, negative: bool)
    requires |bcd| == BCD_MAX && (forall k :: 0 <= k < BCD_MAX ==> bcd[k] <= 9)
    ensures var first := if negative then 2 else 1;
            var x := 1000 * bcd[0] + 100 * bcd[1] + 10 * bcd[2] + bcd[3];
            && (CellAt(bcd, negative, first) == BLANK <==> x < 1000)
            && (CellAt(bcd, negative, first + 1) == BLANK <==> x < 100)
            && CellAt(bcd, negative, 3 + if negative then 1 else 0) != BLANK
            && CellAt(bcd, negative, 4) != BLANK
  {
    hide Glyph;
  }

  function Layout(bcd: seq<nat>, negative: bool): (cells: seq<nat>)
    requires |bcd| == BCD_MAX && (forall k :: 0 <= k < BCD_MAX ==> bcd[k] < 16)
    ensures |cells| == READOUT_DIGITS - 1
  {
    [CellAt(bcd, negative, 1), CellAt(bcd, negative, 2), CellAt(bcd, negative, 3), CellAt(bcd, negative, 4)]
  }

  lemma ReadFour(cells: seq<nat>)
    requires |cells| == 4
    ensures ReadCells(cells) == ReadCell(ReadCell(ReadCell(ReadCell(NOTHING, cells[0]), cells[1]), cells[2]), cells[3])
  {
    assert cells[..3][..2] == cells[..2] && cells[..2][..1] == cells[..1] && cells[..1][..0] == [];
    assert ReadCells(cells[..1]) == ReadCell(NOTHING, cells[0]);
    assert ReadCells(cells[..2]) == ReadCell(ReadCells(cells[..1]), cells[1]);
    assert ReadCells(cells[..3]) == ReadCell(ReadCells(cells[..2]), cells[2]);
  }

  lemma ReadGlyph(r: Reading, digit: nat, dp: bool)
    requires digit <= 9
    ensures ReadCell(r, Encode(true, false, dp, digit))
         == Reading(r.negative, 10 * r.mantissa + digit, r.point || dp, if r.point then r.decimals + 1 else 0)
  {
  }

  /** Before the point, a blanked zero reads like the zero itself. */
  lemma ReadDigitCell(negative: bool, before: nat, digit: nat, blanked: bool)
    requires digit <= 9 && (blanked ==> before == 0 == digit)
    ensures ReadCell(Reading(negative, before, false, 0), if blanked then BLANK else Encode(true, false, false, digit))
         == Reading(negative, 10 * before + digit, false, 0)
  {
    hide Encode, DigitOf;
    ReadGlyph(Reading(negative, before, false, 0), digit, false);
  }

  /** What the cells of the three digits before and at the point hold. */
  lemma DigitCells(bcd: seq<nat>, negative: bool)
    requires |bcd| == BCD_MAX && (forall k :: 0 <= k < BCD_MAX ==> bcd[k] < 16)
    ensures var s := if negative then 2 else 1;
            && CellAt(bcd, negative, s) == (if bcd[0] == 0 then BLANK else Encode(true, false, false, bcd[0]))
            && CellAt(bcd, negative, s + 1) == (if bcd[0] == 0 == bcd[1] then BLANK else Encode(true, false, false, bcd[1]))
            && CellAt(bcd, negative, s + 2) == Encode(true, false, true, bcd[2])
    ensures if negative then CellAt(bcd, negative, 1) == Encode(true, true, false, 0)
            else CellAt(bcd, negative, 4) == Encode(true, false, false, bcd[3])
  {
    hide Encode;
  }

  /** Those three cells, read after a sign or none. */
  lemma ReadUnits(bcd: seq<nat>, negative: bool)
    requires |bcd| == BCD_MAX && (forall k :: 0 <= k < BCD_MAX ==> bcd[k] <= 9)
    ensures var s := if negative then 2 else 1;
            var r := ReadCell(NOTHING.(negative := negative), CellAt(bcd, negative, s));
            ReadCell(ReadCell(r, CellAt(bcd, negative, s + 1)), CellAt(bcd, negative, s + 2)) == Reading(negative, 100 * bcd[0] + 10 * bcd[1] + bcd[2], true, 0)
  {
    hide ReadCell, Encode, CellAt;
    DigitCells(bcd, negative);
    ReadDigitCell(negative, 0, bcd[0], bcd[0] == 0);
    ReadDigitCell(negative, bcd[0], bcd[1], bcd[0] == 0 == bcd[1]);
    ReadGlyph(Reading(negative, 10 * bcd[0] + bcd[1], false, 0), bcd[2], true);
  }

  /** Laid-out digits read back as the number, in tenths; or, behind a minus sign, as whole units. */
  lemma LayoutReadsBack(bcd: seq<nat>, negative: bool)
    requires |bcd| == BCD_MAX && (forall k :: 0 <= k < BCD_MAX ==> bcd[k] <= 9)
    ensures ReadCells(Layout(bcd, negative))
         == if negative then Reading(true, 100 * bcd[0] + 10 * bcd[1] + bcd[2], true, 0)
            else Reading(false, 1000 * bcd[0] + 100 * bcd[1] + 10 * bcd[2] + bcd[3], true, 1)
  {
    hide ReadCell, Encode, CellAt, ReadCells;
    ReadFour(Layout(bcd, negative));
    DigitCells(bcd, negative);
    ReadUnits(bcd, negative);
    if negative {
      MinusSign();
    } else {
      ReadGlyph(Reading(false, 100 * bcd[0] + 10 * bcd[1] + bcd[2], true, 0), bcd[3], false);
    }
  }

  lemma MinusSign()
    ensures ReadCell(NOTHING, Encode(true, true, false, 0)) == NOTHING.(negative := true)
  {
  }

  // ---------- The converter as the firmware sees it ----------

  /** The number the four digits show for a 32-bit argument: the port is 15 bits wide, its top bit is
      the sign input, and the converter works modulo 2^13. */
  function Shown(bin: nat): (x: nat)
    ensures x < 8192
  {
    var port := bin % 32768;
    (if port >= 16384 then 0 - (port - 16384) else port) % 8192
  }

  /** The display is exact for the numbers the converter was made for, and for no others. */
  lemma ShownIsExact(bin: nat)
    ensures Shown(bin) == bin <==> bin < 8192
  {
  }

  /** What it shows otherwise: the number modulo 8192, or its negation if bit 14 is set. */
  lemma ShownModular(bin: nat)
    ensures Shown(bin) == (if bin / 16384 % 2 == 1 then 0 - bin else bin) % 8192
  {
    var q, port := bin / 32768, bin % 32768;
    var b, low := port / 16384, port % 16384;
    DivModUnique(bin, 2 * q + b, 16384, low);
    DivModUnique(2 * q + b, q, 2, b);
    SameResidue(port, bin, 4 * q);
    SameResidue(0 - bin, 0 - low, 4 * q + 2 * b);
  }

  lemma SameResidue(x: int, y: int, k: int)
    requires y == x + 8192 * k
    ensures x % 8192 == y % 8192
  {
  }

  /** A number just above the sign bit shows as one just below 8192. */
  lemma SignBitShown()
    ensures Shown(16385) == 8191
  {
  }

  /** The port's two fields load the converter with the number shown. */
  lemma PortLoadsShown(bin: nat)
    ensures var port := bin % 32768;
            port % 16384 < Pow2(14) && Loaded(4, 14, port / 16384 == 1, port % 16384) == Shown(bin)
  {
    Pow2Values();
    var port := bin % 32768;
    LoadedIsModular(4, 14, port / 16384 == 1, port % 16384);
  }

  /** The converter's output word: four digits, four bits each. */
  function Packed(d: seq<nat>): nat
    requires |d| == 4
  {
    d[0] + 16 * d[1] + 256 * d[2] + 4096 * d[3]
  }

  function Nibble(t: nat, place: nat): (n: nat)
    requires 0 < place
    ensures n < 16
  {
    t / place % 16
  }

  /** Unpacking gives back the digits. */
  lemma Unpacked(d: seq<nat>)
    requires |d| == 4 && Decimal(d)
    ensures var t := Packed(d);
            Nibble(t, 4096) == d[3] && Nibble(t, 256) == d[2] && Nibble(t, 16) == d[1] && Nibble(t, 1) == d[0]
  {
    var t := Packed(d);
    DivModUnique(t, d[3], 4096, d[0] + 16 * d[1] + 256 * d[2]);
    DivModUnique(t, d[2] + 16 * d[3], 256, d[0] + 16 * d[1]);
    DivModUnique(t, d[1] + 16 * d[2] + 256 * d[3], 16, d[0]);
  }

  lemma FourDigits(x: nat)
    requires x < 10000
    ensures var d := Digits(x, 4);
            Decimal(d) && x == 1000 * d[3] + 100 * d[2] + 10 * d[1] + d[0] && x / 10 == 100 * d[3] + 10 * d[2] + d[1]
  {
    var d := Digits(x, 4);
    assert Pow10(2) == 100 && Pow10(4) == 100 * Pow10(2);
    DigitsValue(x, 4);
    FourPlaces(d);
  }

  lemma FourPlaces(d: seq<nat>)
    requires |d| == 4
    ensures Value(d) == 1000 * d[3] + 100 * d[2] + 10 * d[1] + d[0]
  {
    assert Value(d[3..]) == d[3];
    assert Value(d[2..]) == d[2] + 10 * Value(d[3..]) by { assert d[2..][1..] == d[3..]; }
    assert Value(d[1..]) == d[1] + 10 * Value(d[2..]) by { assert d[1..][1..] == d[2..]; }
  }

  class Panel {
    const cells: array<nat>
    const converter: Converter

    ghost predicate Valid()
      reads converter
    {
      && cells.Length == SSEG_MAX
      && converter.digits == 4 && converter.width == 14 && converter.Valid() && converter.state.Idle?
    }

    lemma Fitted()
      requires Valid()
      ensures cells.Length == SSEG_MAX
    {
    }

    constructor ()
      ensures Valid() && fresh(cells) && fresh(converter)
    {
      cells := new nat[SSEG_MAX];
      converter := new Converter(4, 14);
    }

    /** Writes a 32-bit number to the port, runs the converter, and reads its output word. */
    method RunConverter(bin: nat) returns (t: nat)
      requires Valid()
      modifies converter
      ensures Valid() && t == Packed(Digits(Shown(bin), 4))
    {
      hide Digits, Loaded, Shown, Packed, Shifting, Converted, Shifted, TopBit, ShiftedLeft, Decimal, StepsLeft;
      var port := bin % 32768;
      PortLoadsShown(bin);
      var held :| 0 <= held;
      var clocks := converter.Convert(port / 16384 == 1, port % 16384, held);
      t := Packed(converter.bcd);
    }

    /** Converts a 32-bit number and unpacks its four digits, most significant first. */
    method BcdConvert(bin: nat, bcd: array<nat>)
      requires Valid() && bcd.Length == BCD_MAX
      modifies converter, bcd
      ensures Valid()
      ensures forall k :: 0 <= k < BCD_MAX ==> bcd[k] == Digits(Shown(bin), 4)[3 - k]
    {
      hide Valid, Digits, Shown, Packed, Nibble, Value;
      var t := RunConverter(bin);
      FourDigits(Shown(bin));
      Unpacked(Digits(Shown(bin), 4));
      bcd[0] := Nibble(t, 4096);
      bcd[1] := Nibble(t, 256);
      bcd[2] := Nibble(t, 16);
      bcd[3] := Nibble(t, 1);
    }

    /** One write command. */
    method SetBcd(addr: nat, en: bool, sign: bool, dp: bool, val: nat)
      requires cells.Length == SSEG_MAX && addr < SSEG_MAX && val < 16
      modifies cells
      ensures cells[..] == old(cells[..])[addr := Encode(en, sign, dp, val)]
    {
      var flags := (if en then SSEG_VAL_EN else 0) + (if sign then SSEG_SIGN else 0) + (if dp then SSEG_DP else 0);
      var command := Command(addr, flags, val);
      CommandFields(addr, en, sign, dp, val);
      hide Encode, Stored;
      cells[command / SSEG_SEL % 32] := Stored(command);
    }

    /** Draws the magnitude `dec`, in tenths, on the five cells from `idx` on.  The first of them holds
        the readout's code and is not touched. */
    method ReadoutUpdate(idx: nat, dec: nat, negative: bool)
      requires Valid() && idx + READOUT_DIGITS <= SSEG_MAX
      modifies cells, converter
      ensures Valid()
      ensures ReadCells(cells[idx + 1..idx + READOUT_DIGITS])
           == if negative then Reading(true, Shown(dec) / 10, true, 0) else Reading(false, Shown(dec), true, 1)
      // Only leading zeros before the units are blank.
      ensures var first := idx + if negative then 2 else 1;
              (cells[first] == BLANK <==> Shown(dec) < 1000) && (cells[first + 1] == BLANK <==> Shown(dec) < 100)
      ensures forall c :: 0 <= c < SSEG_MAX && !(idx < c < idx + READOUT_DIGITS) ==> cells[c] == old(cells[c])
    {
      hide Digits, Shown, ReadCells, CellAt, Valid;
      Fitted();
      var bcd := new nat[BCD_MAX];
      BcdConvert(dec, bcd);
      FourDigits(Shown(dec));
      Draw(idx, bcd, negative);
      LayoutReadsBack(bcd[..], negative);
      OnlyLeadingZerosBlank(bcd[..], negative);
      assert cells[idx + 1..idx + READOUT_DIGITS] == Layout(bcd[..], negative);
    }

    /** The drawing loops. */
    method Draw(idx: nat, bcd: array<nat>, negative: bool)
      requires cells.Length == SSEG_MAX && idx + READOUT_DIGITS <= SSEG_MAX
      requires bcd != cells && bcd.Length == BCD_MAX && forall k :: 0 <= k < BCD_MAX ==> bcd[k] <= 9
      modifies cells
      ensures forall c :: 1 <= c < READOUT_DIGITS ==> cells[idx + c] == CellAt(bcd[..], negative, c)
      ensures forall c :: 0 <= c < SSEG_MAX && !(idx < c < idx + READOUT_DIGITS) ==> cells[c] == old(cells[c])
    {
      hide Encode, CellAt;
      Cells(bcd[..], negative);
      var i, signIdx;
      if negative {
        SetBcd(idx + 1, true, true, false, 0);
        i := 2;
        signIdx := READOUT_DIGITS - 1;
      } else {
        i := 1;
        signIdx := READOUT_DIGITS - 2;
      }
      ghost var shift := i;
      var j := 0;
      // Chop off leading zeros.
      while bcd[j] == 0 && j < BCD_MAX - 2
        invariant 0 <= j <= LeadingZeros(bcd[..]) && i == shift + j
        invariant Drawn(idx, bcd[..], negative, i)
        invariant forall c :: 0 <= c < SSEG_MAX && !(idx < c < idx + READOUT_DIGITS) ==> cells[c] == old(cells[c])
        decreases BCD_MAX - j
      {
        SetBcd(idx + i, false, false, false, 0);
        i, j := i + 1, j + 1;
      }
      // Print out the rest of the number.
      while j < BCD_MAX && i < READOUT_DIGITS
        invariant LeadingZeros(bcd[..]) <= j <= BCD_MAX && i == shift + j && i <= READOUT_DIGITS
        invariant Drawn(idx, bcd[..], negative, i)
        invariant forall c :: 0 <= c < SSEG_MAX && !(idx < c < idx + READOUT_DIGITS) ==> cells[c] == old(cells[c])
        decreases BCD_MAX - j
      {
        SetBcd(idx + i, true, false, i == signIdx, bcd[j]);
        i, j := i + 1, j + 1;
      }
    }

    /** The cells before cell `i` of the readout are as they should be. */
    ghost predicate Drawn(idx: nat, bcd: seq<nat>, negative: bool, i: nat)
      requires cells.Length == SSEG_MAX && idx + READOUT_DIGITS <= SSEG_MAX && i <= READOUT_DIGITS
      requires |bcd| == BCD_MAX && forall k :: 0 <= k < BCD_MAX ==> bcd[k] < 16
      reads cells
    {
      forall c :: 1 <= c < i ==> cells[idx + c] == CellAt(bcd, negative, c)
    }
  }
}
