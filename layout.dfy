/**
 * What the number-formatting routines put into the display buffer: decimal-place clamping,
 * the split of a value into sign, integer part and scaled fraction, the width check, and
 * the right-aligned run of digit patterns.
 */
module Render {
  import opened Bytes
  import opened Segments
  import opened Decimal

  /** A value as the driver renders it: sign, truncated integer part, rounded scaled fraction. */
  datatype Parts = Parts(negative: bool, intPart: nat, fracInt: nat)

  function Abs(x: real): real
  {
    if x < 0.0 then -x else x
  }

  /** C's conversion of a real to an integer type: truncation toward zero. */
  function Trunc(x: real): (n: int)
    ensures x >= 0.0 ==> 0 <= n && n as real <= x < n as real + 1.0
    ensures x < 0.0 ==> n <= 0 && n as real - 1.0 < x <= n as real
  {
    if x >= 0.0 then x.Floor else -((-x).Floor)
  }

  /** One digit position is reserved for a trailing symbol unless it is the blank. */
  function SymbolSpace(symbol: nat): nat
  {
    if symbol != Blank then 1 else 0
  }

  /**
   * The decimal places actually rendered: first capped at digits - 1, then, when a symbol
   * takes a position, at digits - 1 - space. Together these are min(places, digits - 1 - space).
   */
  function ClampPlaces(digits: nat, places: nat, space: nat): (dp: nat)
    requires digits >= 1 + space
    ensures dp <= places && dp + space <= digits - 1
    ensures dp == places || dp + space == digits - 1
  {
    var capped := if places > digits - 1 then digits - 1 else places;
    if capped + space > digits - 1 then digits - 1 - space else capped
  }

  /**
   * The driver's split of a value for `dp` decimal places: the sign, the magnitude's integer
   * part (truncated), and the remaining fraction times 10^dp rounded half-up.
   */
  function Split(value: real, dp: nat): (p: Parts)
    ensures p.negative == (value < 0.0)
    ensures p.intPart as real <= Abs(value) < p.intPart as real + 1.0
  {
    var m := Abs(value);
    Parts(value < 0.0, m.Floor, RoundHalfUp(ScaledRemainder(m, Pow10(dp))))
  }

  /** What is left of m below its floor, times P: a real in [0, P). */
  function ScaledRemainder(m: real, P: nat): (x: real)
    requires m >= 0.0 && P >= 1
    ensures 0.0 <= x < P as real
  {
    var f := m - m.Floor as real;
    FractionTimes(f, P as real);
    f * P as real
  }

  /** The scaled fraction is the remainder below the integer part times 10^dp, rounded half-up. */
  lemma SplitFraction(value: real, dp: nat)
    ensures var p := Split(value, dp);
      var x := (Abs(value) - p.intPart as real) * Pow10(dp) as real;
      p.fracInt as real - 0.5 <= x < p.fracInt as real + 0.5 && p.fracInt <= Pow10(dp)
  {
    var m := Abs(value);
    var p := Split(value, dp);
    var x := ScaledRemainder(m, Pow10(dp));
    assert p.intPart == m.Floor && p.fracInt == RoundHalfUp(x);
    RemainderBelow(m, p.intPart, Pow10(dp));
    WithinHalf(x, (m - p.intPart as real) * Pow10(dp) as real, p.fracInt);
    IntBetween(p.fracInt, 0, Pow10(dp));
  }

  lemma WithinHalf(x: real, y: real, r: int)
    requires x == y && r as real - 0.5 <= x < r as real + 0.5
    ensures r as real - 0.5 <= y < r as real + 0.5
  {
  }

  lemma RemainderBelow(m: real, ip: int, P: nat)
    requires m >= 0.0 && P >= 1 && ip == m.Floor
    ensures ScaledRemainder(m, P) == (m - ip as real) * P as real
  {
  }

  /** An integer strictly within half a unit beyond [lo, hi] lies in [lo, hi]. */
  lemma IntBetween(r: int, lo: int, hi: int)
    requires lo as real - 0.5 < r as real < hi as real + 0.5
    ensures lo <= r <= hi
  {
  }

  lemma FractionTimes(f: real, Q: real)
    requires 0.0 <= f < 1.0 && Q >= 1.0
    ensures 0.0 <= f * Q < Q
  {
    assert Q - f * Q == (1.0 - f) * Q;
    assert (1.0 - f) * Q > 0.0;
  }

  /** The integer part of a value is the magnitude of its C truncation. */
  lemma SplitIntPartIsTrunc(value: real, dp: nat)
    ensures Split(value, dp).intPart == if Trunc(value) < 0 then -Trunc(value) else Trunc(value)
    ensures (Trunc(value) == 0) == (Split(value, dp).intPart == 0)
  {
    assert Split(value, dp).intPart == Abs(value).Floor;
    if value >= 0.0 {
      assert Abs(value) == value;
    } else {
      assert Abs(value) == -value;
    }
  }

  /** An integer is split exactly: its magnitude and no fraction. */
  lemma IntegerSplit(n: int)
    ensures Split(n as real, 0) == Parts(n < 0, if n < 0 then -n else n, 0)
  {
    var m := Abs(n as real);
    assert m == (if n < 0 then -n else n) as real;
    assert m.Floor == if n < 0 then -n else n;
    assert (m - m.Floor as real) * Pow10(0) as real == 0.0;
  }

  /** Positions the rendered number takes. */
  function Width(p: Parts, dp: nat, symbol: nat): nat
  {
    DigitCount(p.intPart) + dp + (if p.negative then 1 else 0) + SymbolSpace(symbol)
  }

  function Zeros(n: nat): (z: seq<byte>)
    ensures |z| == n
  {
    seq(n, _ => 0x00)
  }

  function Dashes(n: nat): (z: seq<byte>)
    ensures |z| == n
  {
    seq(n, _ => Glyph(Minus))
  }

  /** The buffer after its first |cells| positions are overwritten with `cells`. */
  function Overlay(b: seq<byte>, cells: seq<byte>): (r: seq<byte>)
    requires |cells| <= |b|
    ensures |r| == |b|
  {
    cells + b[|cells|..]
  }

  /** Writing the next position extends the overlay by one cell. */
  lemma OverlaySnoc(b: seq<byte>, cells: seq<byte>, x: byte)
    requires |cells| < |b|
    ensures Overlay(b, cells)[|cells| := x] == Overlay(b, cells + [x])
  {
    assert b[|cells|..] == [b[|cells|]] + b[|cells| + 1..];
  }

  lemma ZerosSnoc(n: nat)
    ensures Zeros(n + 1) == Zeros(n) + [0x00]
  {
  }

  lemma DashesSnoc(n: nat)
    ensures Dashes(n + 1) == Dashes(n) + [Glyph(Minus)]
  {
  }

  /** Position by position: the cells first, then the old buffer. */
  lemma OverlayAt(b: seq<byte>, cells: seq<byte>)
    requires |cells| <= |b|
    ensures forall i :: 0 <= i < |cells| ==> Overlay(b, cells)[i] == cells[i]
    ensures forall i :: |cells| <= i < |b| ==> Overlay(b, cells)[i] == b[i]
  {
  }

  function Glyphs(ds: seq<nat>): (gs: seq<byte>)
    ensures |gs| == |ds|
  {
    seq(|ds|, i requires 0 <= i < |ds| => Glyph(ds[i]))
  }

  /** Light the decimal point of the last pattern, when asked to. */
  function MarkDot(gs: seq<byte>, dot: bool): (r: seq<byte>)
    ensures |r| == |gs|
  {
    if dot && |gs| > 0 then gs[|gs| - 1 := gs[|gs| - 1] | DotBit] else gs
  }

  /** The pieces of a rendered run. */
  function SignCells(p: Parts): (cs: seq<byte>)
    ensures |cs| == if p.negative then 1 else 0
  {
    if p.negative then [Glyph(Minus)] else []
  }

  function IntCells(p: Parts, dp: nat): (cs: seq<byte>)
    ensures |cs| == DigitCount(p.intPart)
  {
    MarkDot(Glyphs(DecimalDigits(p.intPart)), dp > 0)
  }

  function FracCells(p: Parts, dp: nat): (cs: seq<byte>)
    ensures |cs| == dp
  {
    Glyphs(Digits(p.fracInt, dp))
  }

  function SymbolCells(symbol: nat): (cs: seq<byte>)
    ensures |cs| == SymbolSpace(symbol)
  {
    if symbol != Blank then [Glyph(symbol)] else []
  }

  /**
   * The rendered run: an optional minus, the integer digits with the point on the last one
   * when there are decimals, the dp lowest digits of the scaled fraction, an optional symbol.
   */
  function Cells(p: Parts, dp: nat, symbol: nat): (cs: seq<byte>)
    ensures |cs| == Width(p, dp, symbol)
  {
    SignCells(p) + IntCells(p, dp) + FracCells(p, dp) + SymbolCells(symbol)
  }

  /** The first `digits` buffer positions: blanks, then the run right-aligned. */
  function Layout(digits: nat, p: Parts, dp: nat, symbol: nat): (cs: seq<byte>)
    requires Width(p, dp, symbol) <= digits
    ensures |cs| == digits
  {
    Zeros(digits - Width(p, dp, symbol)) + Cells(p, dp, symbol)
  }

  /** Read a run of digit patterns back as digits, or None if one is not a digit. */
  function ReadDigits(cells: seq<byte>): (r: Option<seq<nat>>)
    ensures r.Some? ==> |r.value| == |cells|
  {
    if cells == [] then Some([])
    else match (DigitOf(cells[0]), ReadDigits(cells[1..]))
      case (Some(d), Some(rest)) => Some([d] + rest)
      case _ => None
  }

  lemma {:induction false} ReadDigitsPointwise(cells: seq<byte>, ds: seq<nat>)
    requires |cells| == |ds|
    requires forall i :: 0 <= i < |ds| ==> DigitOf(cells[i]) == Some(ds[i])
    ensures ReadDigits(cells) == Some(ds)
  {
    if cells != [] {
      var head := DigitOf(cells[0]);
      assert head == Some(ds[0]);
      forall i | 0 <= i < |ds| - 1 ensures DigitOf(cells[1..][i]) == Some(ds[1..][i]) {
        assert cells[1..][i] == cells[i + 1];
      }
      ReadDigitsPointwise(cells[1..], ds[1..]);
      assert ReadDigits(cells) == Some([ds[0]] + ds[1..]);
      assert [ds[0]] + ds[1..] == ds;
    }
  }

  /** Digit patterns, one of them possibly dotted, read back as the digits they show. */
  lemma ReadMarkedGlyphs(ds: seq<nat>, dot: bool)
    requires forall i :: 0 <= i < |ds| ==> ds[i] < 10
    ensures ReadDigits(MarkDot(Glyphs(ds), dot)) == Some(ds)
    ensures ReadDigits(Glyphs(ds)) == Some(ds)
  {
    var cs := MarkDot(Glyphs(ds), dot);
    forall i | 0 <= i < |ds| ensures DigitOf(cs[i]) == Some(ds[i]) && DigitOf(Glyphs(ds)[i]) == Some(ds[i]) {
      var on := dot && i == |ds| - 1;
      assert cs[i] == DigitPattern(ds[i], on) by {
        assert cs[i] & 0x7F == DigitPattern(ds[i], on) & 0x7F;
        assert cs[i] & DotBit == DigitPattern(ds[i], on) & DotBit;
        BytesFromHalves(cs[i], DigitPattern(ds[i], on));
      }
      DigitOfPattern(ds[i], on);
      assert Glyphs(ds)[i] == DigitPattern(ds[i], false);
      DigitOfPattern(ds[i], false);
    }
    ReadDigitsPointwise(cs, ds);
    ReadDigitsPointwise(Glyphs(ds), ds);
  }

  lemma BytesFromHalves(a: byte, b: byte)
    requires a & 0x7F == b & 0x7F && a & DotBit == b & DotBit
    ensures a == b
  {
  }

  /** Slicing a concatenation of five pieces at their boundaries gives back each piece. */
  lemma SliceFive(a: seq<byte>, b: seq<byte>, c: seq<byte>, d: seq<byte>, e: seq<byte>,
                  L: seq<byte>, i: nat, j: nat, k: nat, l: nat)
    requires L == a + (b + c + d + e)
    requires i == |a| && j == i + |b| && k == j + |c| && l == k + |d|
    ensures l <= |L|
    ensures L[..i] == a && L[i..j] == b && L[j..k] == c && L[k..l] == d && L[l..] == e
  {
  }

  /** Where each piece of the run sits in the layout. */
  lemma LayoutSlices(digits: nat, p: Parts, dp: nat, symbol: nat)
    requires Width(p, dp, symbol) <= digits
    ensures var L := Layout(digits, p, dp, symbol);
      var start := digits - Width(p, dp, symbol);
      var i0 := start + (if p.negative then 1 else 0);
      var c := DigitCount(p.intPart);
      && L[..start] == Zeros(start)
      && L[start..i0] == SignCells(p)
      && L[i0..i0 + c] == IntCells(p, dp)
      && L[i0 + c..i0 + c + dp] == FracCells(p, dp)
      && L[i0 + c + dp..] == SymbolCells(symbol)
  {
    var start := digits - Width(p, dp, symbol);
    var i0 := start + (if p.negative then 1 else 0);
    var c := DigitCount(p.intPart);
    SliceFive(Zeros(start), SignCells(p), IntCells(p, dp), FracCells(p, dp), SymbolCells(symbol),
              Layout(digits, p, dp, symbol), start, i0, i0 + c, i0 + c + dp);
  }

  /**
   * What the layout shows: blanks before the run, the minus sign at its start when negative,
   * then digit patterns that read back as the integer part and as the fraction modulo 10^dp,
   * and the symbol last.
   */
  lemma LayoutReadBack(digits: nat, p: Parts, dp: nat, symbol: nat)
    requires Width(p, dp, symbol) <= digits
    ensures var L := Layout(digits, p, dp, symbol);
      var start := digits - Width(p, dp, symbol);
      var i0 := start + (if p.negative then 1 else 0);
      var c := DigitCount(p.intPart);
      && (forall k :: 0 <= k < start ==> L[k] == 0x00)
      && (p.negative ==> L[start] == Glyph(Minus))
      && ReadDigits(L[i0..i0 + c]) == Some(DecimalDigits(p.intPart))
      && FromDigits(DecimalDigits(p.intPart)) == p.intPart
      && ReadDigits(L[i0 + c..i0 + c + dp]) == Some(Digits(p.fracInt, dp))
      && FromDigits(Digits(p.fracInt, dp)) == p.fracInt % Pow10(dp)
      && (symbol != Blank ==> L[digits - 1] == Glyph(symbol))
  {
    var L := Layout(digits, p, dp, symbol);
    var start := digits - Width(p, dp, symbol);
    var i0 := start + (if p.negative then 1 else 0);
    var c := DigitCount(p.intPart);
    LayoutSlices(digits, p, dp, symbol);
    forall k | 0 <= k < start ensures L[k] == 0x00 {
      assert L[k] == L[..start][k];
    }
    if p.negative {
      assert L[start] == L[start..i0][0];
    }
    if symbol != Blank {
      assert L[digits - 1] == L[i0 + c + dp..][0];
    }
    ReadMarkedGlyphs(DecimalDigits(p.intPart), dp > 0);
    ReadMarkedGlyphs(Digits(p.fracInt, dp), false);
    DecimalDigitsValue(p.intPart);
    DigitsValue(p.fracInt, dp);
  }

  /** Within the integer digits the point is on the last one, and only when dp > 0. */
  lemma IntCellsDot(p: Parts, dp: nat, j: nat)
    requires j < DigitCount(p.intPart)
    ensures IntCells(p, dp)[j] & DotBit != 0 <==> dp > 0 && j == DigitCount(p.intPart) - 1
  {
    var gs := Glyphs(DecimalDigits(p.intPart));
    GlyphUndotted(DecimalDigits(p.intPart)[j]);
    assert gs[j] & DotBit == 0;
  }

  /** No pattern of a run has its decimal point lit. */
  ghost predicate Undotted(cs: seq<byte>)
  {
    forall i :: 0 <= i < |cs| ==> cs[i] & DotBit == 0
  }

  /** In a + b + c with a and c undotted, only positions within b can carry the point. */
  lemma DotInMiddle(a: seq<byte>, b: seq<byte>, c: seq<byte>, k: nat)
    requires Undotted(a) && Undotted(c) && k < |a| + |b| + |c|
    ensures (a + b + c)[k] & DotBit != 0 <==> |a| <= k < |a| + |b| && b[k - |a|] & DotBit != 0
  {
    if k < |a| {
      assert (a + b + c)[k] == a[k];
    } else if k < |a| + |b| {
      assert (a + b + c)[k] == b[k - |a|];
    } else {
      assert (a + b + c)[k] == c[k - |a| - |b|];
    }
  }

  lemma UndottedJoin(a: seq<byte>, b: seq<byte>)
    requires Undotted(a) && Undotted(b)
    ensures Undotted(a + b)
  {
    forall i | 0 <= i < |a + b| ensures (a + b)[i] & DotBit == 0 {
      if i < |a| {
        assert (a + b)[i] == a[i];
      } else {
        assert (a + b)[i] == b[i - |a|];
      }
    }
  }

  lemma OuterPiecesUndotted(start: nat, p: Parts, dp: nat, symbol: nat)
    ensures Undotted(Zeros(start) + SignCells(p))
    ensures Undotted(FracCells(p, dp) + SymbolCells(symbol))
  {
    var z, sg, f, sy := Zeros(start), SignCells(p), FracCells(p, dp), SymbolCells(symbol);
    assert Undotted(z);
    GlyphUndotted(Minus);
    assert Undotted(sg);
    GlyphsUndotted(Digits(p.fracInt, dp));
    GlyphUndotted(symbol);
    assert Undotted(sy);
    UndottedJoin(z, sg);
    UndottedJoin(f, sy);
  }

  lemma GlyphsUndotted(ds: seq<nat>)
    ensures Undotted(Glyphs(ds))
  {
    forall i | 0 <= i < |ds| ensures Glyphs(ds)[i] & DotBit == 0 {
      GlyphUndotted(ds[i]);
    }
  }

  lemma LayoutThreeParts(digits: nat, p: Parts, dp: nat, symbol: nat)
    requires Width(p, dp, symbol) <= digits
    ensures Layout(digits, p, dp, symbol) ==
      (Zeros(digits - Width(p, dp, symbol)) + SignCells(p)) + IntCells(p, dp) + (FracCells(p, dp) + SymbolCells(symbol))
  {
    Regroup(Zeros(digits - Width(p, dp, symbol)), SignCells(p), IntCells(p, dp), FracCells(p, dp), SymbolCells(symbol));
  }

  lemma Regroup(z: seq<byte>, sg: seq<byte>, i: seq<byte>, f: seq<byte>, sy: seq<byte>)
    ensures z + (sg + i + f + sy) == (z + sg) + i + (f + sy)
  {
  }

  /** The decimal point is lit on exactly one position, the last integer digit, iff dp > 0. */
  lemma LayoutDotOnce(digits: nat, p: Parts, dp: nat, symbol: nat, k: nat)
    requires Width(p, dp, symbol) <= digits && k < digits
    ensures var L := Layout(digits, p, dp, symbol);
      var start := digits - Width(p, dp, symbol);
      var last := start + (if p.negative then 1 else 0) + DigitCount(p.intPart) - 1;
      (L[k] & DotBit != 0 <==> dp > 0 && k == last)
  {
    var start := digits - Width(p, dp, symbol);
    var a := Zeros(start) + SignCells(p);
    var b := IntCells(p, dp);
    var c := FracCells(p, dp) + SymbolCells(symbol);
    OuterPiecesUndotted(start, p, dp, symbol);
    LayoutThreeParts(digits, p, dp, symbol);
    DotInMiddle(a, b, c, k);
    if |a| <= k < |a| + |b| {
      IntCellsDot(p, dp, k - |a|);
    }
  }

  // ---------------------------------------------------------------------------------------
  // Temperature

  /**
   * The temperature routine's own width rule: integer digits, a minus when negative, the
   * decimals, one more position for the point when there are decimals, and the degree mark.
   */
  function TemperatureWidth(p: Parts, dp: nat): nat
  {
    DigitCount(p.intPart) + (if p.negative then 1 else 0) + dp + (if dp > 0 then 1 else 0) + 1
  }

  /**
   * When the temperature rule admits a value, the general routine keeps all requested
   * decimals and the number fits with a position to spare, with or without a symbol slot.
   */
  lemma TemperatureFits(digits: nat, p: Parts, dp: nat)
    requires TemperatureWidth(p, dp) <= digits
    ensures digits >= 2
    ensures ClampPlaces(digits, dp, 0) == dp && Width(p, dp, Blank) < digits
    ensures ClampPlaces(digits, dp, 1) == dp && Width(p, dp, Degree) <= digits
  {
  }

  /**
   * As written, the degree mark goes on the last position of the right-aligned number,
   * which holds one of its digits: that digit is lost.
   */
  lemma TemperatureOverwritesDigit(digits: nat, p: Parts, dp: nat)
    requires TemperatureWidth(p, dp) <= digits
    ensures var L := Layout(digits, p, dp, Blank);
      DigitOf(L[digits - 1]).Some? && L[digits - 1] != Glyph(Degree)
  {
    var L := Layout(digits, p, dp, Blank);
    var start := digits - Width(p, dp, Blank);
    var i0 := start + (if p.negative then 1 else 0);
    var c := DigitCount(p.intPart);
    LayoutSlices(digits, p, dp, Blank);
    var d: nat;
    if dp > 0 {
      assert L[digits - 1] == FracCells(p, dp)[dp - 1];
      d := Digits(p.fracInt, dp)[dp - 1];
      assert L[digits - 1] == Glyph(d);
    } else {
      assert L[digits - 1] == IntCells(p, dp)[c - 1];
      d := DecimalDigits(p.intPart)[c - 1];
      assert L[digits - 1] == Glyph(d);
    }
    DigitOfPattern(d, false);
    DegreeIsNotADigit(d);
  }

  lemma {:induction false} ReadDigitsAt(cells: seq<byte>, ds: seq<nat>, k: nat)
    requires ReadDigits(cells) == Some(ds) && k < |cells|
    ensures DigitOf(cells[k]) == Some(ds[k])
  {
    if k > 0 {
      match DigitOf(cells[0]) {
        case Some(d) =>
          var rest := ReadDigits(cells[1..]).value;
          assert ds == [d] + rest;
          ReadDigitsAt(cells[1..], rest, k - 1);
      }
    }
  }

  /** 25 degrees, no decimals, four digits: the layout is " 25", the buffer ends up " 2°". */
  lemma TemperatureLosesLastDigit()
    ensures Split(25.0, 0) == Parts(false, 25, 0) && TemperatureWidth(Parts(false, 25, 0), 0) <= 4
    ensures Layout(4, Parts(false, 25, 0), 0, Blank) == [0x00, 0x00, 0x5B, 0x6D]
    ensures Layout(4, Parts(false, 25, 0), 0, Blank)[3 := Glyph(Degree)] == [0x00, 0x00, 0x5B, 0x63]
  {
    var p := Parts(false, 25, 0);
    assert DigitCount(25) == 2;
    assert IntCells(p, 0) == [0x5B, 0x6D] by {
      assert DecimalDigits(25) == [2, 5];
    }
    assert Zeros(2) == [0, 0];
    AssembleLayout(4, p, 0, Blank, [0, 0], [], [0x5B, 0x6D], [], []);
  }

  /**
   * With the degree mark passed as the trailing symbol, the number keeps the first
   * digits - 1 positions exactly as it would have alone and the mark takes the last one.
   */
  lemma DegreeAfterNumber(digits: nat, p: Parts, dp: nat)
    requires Width(p, dp, Degree) <= digits
    ensures Width(p, dp, Blank) <= digits - 1
    ensures Layout(digits, p, dp, Degree) == Layout(digits - 1, p, dp, Blank) + [Glyph(Degree)]
  {
  }

  // ---------------------------------------------------------------------------------------
  // Worked layouts on an eight-digit display

  /** The layout as its blank prefix followed by the four pieces of the run. */
  lemma AssembleLayout(digits: nat, p: Parts, dp: nat, symbol: nat,
                       z: seq<byte>, sg: seq<byte>, ic: seq<byte>, fc: seq<byte>, sc: seq<byte>)
    requires Width(p, dp, symbol) <= digits
    requires z == Zeros(digits - Width(p, dp, symbol)) && sg == SignCells(p) && ic == IntCells(p, dp)
    requires fc == FracCells(p, dp) && sc == SymbolCells(symbol)
    ensures Layout(digits, p, dp, symbol) == z + (sg + ic + fc + sc)
  {
  }

  /** Zero shows as a single "0" in the rightmost position. */
  lemma ZeroLayout()
    ensures Split(0.0, 0) == Parts(false, 0, 0)
    ensures Layout(8, Parts(false, 0, 0), 0, Blank) == [0, 0, 0, 0, 0, 0, 0, 0x3F]
  {
    var p := Parts(false, 0, 0);
    assert IntCells(p, 0) == [0x3F] by {
      assert DecimalDigits(0) == [0];
    }
    assert Zeros(7) == [0, 0, 0, 0, 0, 0, 0];
    AssembleLayout(8, p, 0, Blank, [0, 0, 0, 0, 0, 0, 0], [], [0x3F], [], []);
  }

  /** -123 with no decimals: minus, 1, 2, 3 from position 4. */
  lemma NegativeIntegerLayout()
    ensures Split(-123.0, 0) == Parts(true, 123, 0)
    ensures Layout(8, Parts(true, 123, 0), 0, Blank) == [0, 0, 0, 0, 0x40, 0x06, 0x5B, 0x4F]
  {
    var p := Parts(true, 123, 0);
    NegativeSplit();
    NegativeIntCells();
    assert Zeros(4) == [0, 0, 0, 0];
    AssembleLayout(8, p, 0, Blank, [0, 0, 0, 0], [0x40], [0x06, 0x5B, 0x4F], [], []);
  }

  lemma NegativeSplit()
    ensures Split(-123.0, 0) == Parts(true, 123, 0)
  {
    assert Abs(-123.0) == 123.0;
  }

  lemma NegativeIntCells()
    ensures IntCells(Parts(true, 123, 0), 0) == [0x06, 0x5B, 0x4F]
  {
    NegativeDigits();
    assert Glyphs([1, 2, 3]) == [Glyph(1), Glyph(2), Glyph(3)];
  }

  lemma NegativeDigits()
    ensures DecimalDigits(123) == [1, 2, 3]
  {
    assert DigitCount(123) == 3;
    assert Digits(12, 2) == [1, 2];
  }

  /** 3.14 at two decimals splits into 3 and 14. */
  lemma FractionSplit()
    ensures Split(3.14, 2) == Parts(false, 3, 14)
  {
    assert Pow10(2) == 100;
  }

  /** 3.14 with two decimals: "3." then 1, 4, right-aligned. */
  lemma FractionLayout()
    ensures Layout(8, Parts(false, 3, 14), 2, Blank) == [0, 0, 0, 0, 0, 0xCF, 0x06, 0x66]
  {
    var p := Parts(false, 3, 14);
    FractionIntCells();
    FractionFracCells();
    assert Zeros(5) == [0, 0, 0, 0, 0];
    AssembleLayout(8, p, 2, Blank, [0, 0, 0, 0, 0], [], [0xCF], [0x06, 0x66], []);
  }

  lemma FractionIntCells()
    ensures IntCells(Parts(false, 3, 14), 2) == [0xCF]
  {
    assert DecimalDigits(3) == [3];
    assert Glyphs([3]) == [0x4F];
    assert MarkDot([0x4F], true) == [0x4F | DotBit];
  }

  lemma FractionFracCells()
    ensures FracCells(Parts(false, 3, 14), 2) == [0x06, 0x66]
  {
    assert Digits(14, 2) == [1, 4];
    assert Glyphs([1, 4]) == [Glyph(1), Glyph(4)];
  }

  /** 12345 does not fit four digits; 1.25 at one decimal rounds half-up to 1.3. */
  lemma OverflowAndRounding()
    ensures Width(Split(12345.0, 0), 0, Blank) > 4
    ensures Split(1.25, 1) == Parts(false, 1, 3)
  {
    assert Split(12345.0, 0).intPart == 12345;
    assert Pow10(1) == 10;
  }

  // ---------------------------------------------------------------------------------------
  // Rounding

  /** The number the display shows, in units of 10^-dp (the fraction's carry is not shown). */
  function ShownValue(p: Parts, dp: nat): nat
  {
    p.intPart * Pow10(dp) + p.fracInt % Pow10(dp)
  }

  /**
   * As written the rounding carry out of the fraction is dropped: 0.999 at two places
   * rounds its fraction to 100, whose low two digits show 0.00, more than half a unit off.
   */
  lemma SplitDropsCarry()
    ensures Split(0.999, 2) == Parts(false, 0, 100) && ShownValue(Split(0.999, 2), 2) == 0
    ensures 0.999 * Pow10(2) as real - ShownValue(Split(0.999, 2), 2) as real > 0.5
  {
    assert Pow10(2) == 100;
  }

  /** With no decimals the value is truncated, as designed: 2.7 shows 2. */
  lemma ZeroPlacesTruncate()
    ensures Split(2.7, 0) == Parts(false, 2, 1) && ShownValue(Split(2.7, 0), 0) == 2
  {
  }

  /**
   * The corrected split: with decimals the whole scaled magnitude is rounded once, so the
   * carry reaches the integer part; with none the magnitude is truncated, as the driver does.
   */
  function RoundedSplit(value: real, dp: nat): (p: Parts)
    ensures p.negative == (value < 0.0)
    ensures p.fracInt < Pow10(dp)
  {
    if dp == 0 then Parts(value < 0.0, Abs(value).Floor, 0)
    else Rescale(value < 0.0, Abs(value), Pow10(dp))
  }

  /** With no decimals the corrected split shows what the driver shows: the truncated magnitude. */
  lemma RoundedSplitZeroPlaces(value: real)
    ensures ShownValue(RoundedSplit(value, 0), 0) == ShownValue(Split(value, 0), 0)
  {
    assert Split(value, 0).intPart == Abs(value).Floor;
  }

  lemma RoundedIsRescale(value: real, dp: nat)
    requires dp > 0
    ensures RoundedSplit(value, dp) == Rescale(value < 0.0, Abs(value), Pow10(dp))
  {
  }

  /** With decimals the corrected split shows the value to within half a unit of 10^-dp. */
  lemma RoundedSplitWithinHalf(value: real, dp: nat)
    requires dp > 0
    ensures ShownValue(RoundedSplit(value, dp), dp) as real - 0.5 <= Abs(value) * Pow10(dp) as real
    ensures Abs(value) * Pow10(dp) as real < ShownValue(RoundedSplit(value, dp), dp) as real + 0.5
  {
    RoundedIsRescale(value, dp);
    ShownRescale(value < 0.0, Abs(value), dp);
  }

  lemma ShownRescale(negative: bool, m: real, dp: nat)
    requires m >= 0.0
    ensures m * Pow10(dp) as real >= 0.0
    ensures ShownValue(Rescale(negative, m, Pow10(dp)), dp) == RoundHalfUp(m * Pow10(dp) as real)
  {
    NonNegProduct(m, Pow10(dp) as real);
  }

  /** Where the fraction does not round up to a whole unit, the correction changes nothing. */
  lemma RoundedSplitWithoutCarry(value: real, dp: nat)
    requires dp > 0 && Split(value, dp).fracInt < Pow10(dp)
    ensures RoundedSplit(value, dp) == Split(value, dp)
  {
    var m, P := Abs(value), Pow10(dp);
    var p := Split(value, dp);
    assert p.intPart == m.Floor && p.fracInt == RoundHalfUp(ScaledRemainder(m, P));
    RemainderBelow(m, p.intPart, P);
    RoundedIsRescale(value, dp);
    RescaleOf(value < 0.0, m, P, p.intPart, p.fracInt);
  }

  /** Rescaling splits at the floor when the remainder's share does not round up to P. */
  lemma RescaleOf(negative: bool, m: real, P: nat, q: nat, r: nat)
    requires m >= 0.0 && P >= 1 && q == m.Floor && r < P
    requires m - q as real >= 0.0 && r == RoundHalfUp((m - q as real) * P as real)
    ensures Rescale(negative, m, P) == Parts(negative, q, r)
  {
    RoundingSplits(m, q, P);
    ModUnique(RoundHalfUp(m * P as real), P, q, r);
  }

  /** Rounding m * P once is rounding the integer part's share and the remainder's apart. */
  lemma RoundingSplits(m: real, ip: int, P: nat)
    requires m >= 0.0 && P >= 1 && ip == m.Floor
    ensures m - ip as real >= 0.0
    ensures RoundHalfUp(m * P as real) == ip * P + RoundHalfUp((m - ip as real) * P as real)
  {
    var f := m - ip as real;
    NonNegProduct(m, P as real);
    NonNegProduct(f, P as real);
    assert m * P as real == (ip * P) as real + f * P as real;
    FloorShift(ip * P, f * P as real + 0.5);
  }

  lemma FloorShift(k: int, y: real)
    ensures (k as real + y).Floor == k + y.Floor
  {
  }

  function Rescale(negative: bool, m: real, P: nat): (p: Parts)
    requires m >= 0.0 && P >= 1
    ensures p.negative == negative && p.fracInt < P
    ensures p.intPart * P + p.fracInt % P == RoundHalfUp(m * P as real)
  {
    NonNegProduct(m, P as real);
    var scaled := RoundHalfUp(m * P as real);
    DivModJoin(scaled, P);
    Parts(negative, scaled / P, scaled % P)
  }

  /** Rounding half-up of a non-negative real: the integer within half a unit. */
  function RoundHalfUp(x: real): (n: nat)
    requires x >= 0.0
    ensures n as real - 0.5 <= x < n as real + 0.5
  {
    (x + 0.5).Floor
  }

  lemma NonNegProduct(a: real, b: real)
    requires a >= 0.0 && b >= 0.0
    ensures a * b >= 0.0
  {
  }

  /** Splitting a natural number at P and joining it again gives it back. */
  lemma DivModJoin(n: nat, P: nat)
    requires P >= 1
    ensures (n / P) * P + (n % P) % P == n
  {
    ModUnique(n % P, P, 0, n % P);
  }
}
