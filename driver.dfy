/**
 * The HT16K33 driver: one device handle whose fields and 8-byte display buffer are updated
 * in place, and whose only contact with the chip is a bus write that returns a status.
 */
module Driver {
  import opened Bytes
  import opened Segments
  import opened Protocol
  import opened Decimal
  import opened Render

  /** The bus layer's status codes. */
  datatype Status = Ok | Error | Busy | Timeout

  /** The i-th status the bus will return; once the script runs out every write succeeds. */
  function Reply(r: seq<Status>, i: nat): Status
  {
    if i < |r| then r[i] else Ok
  }

  /** Magnitudes whose truncation fits a C int32. */
  const Int32Bound: real := 2147483648.0

  /** What a display routine leaves behind: the buffer and the frames it wrote, in order. */
  datatype Outcome = Outcome(buffer: seq<byte>, frames: seq<seq<byte>>)

  /**
   * The general number routine: with dp the clamped decimal places and p the split value,
   * either the run does not fit and every configured position shows a dash (one frame), or
   * the first `digits` positions are cleared and flushed, then hold the layout (two frames).
   * Positions from `digits` on keep what they held.
   */
  ghost function NumberOutcome(b: seq<byte>, digits: nat, value: real, places: nat, symbol: nat): Outcome
    requires |b| == 8 && 1 + SymbolSpace(symbol) <= digits <= 8
  {
    var dp := ClampPlaces(digits, places, SymbolSpace(symbol));
    var p := Split(value, dp);
    if Width(p, dp, symbol) > digits then
      var shown := Overlay(b, Dashes(digits));
      Outcome(shown, [Frame(shown)])
    else
      var shown := Overlay(b, Layout(digits, p, dp, symbol));
      Outcome(shown, [Frame(Overlay(b, Zeros(digits))), Frame(shown)])
  }

  /** The temperature routine's own width rule admits the value. */
  ghost predicate TemperatureFitsOn(digits: nat, t: real, places: nat)
  {
    var dp := Min(places, 2);
    TemperatureWidth(Split(t, dp), dp) <= digits
  }

  /** The corrected temperature routine: the same width rule, the degree mark as the symbol. */
  ghost function IntendedTemperatureOutcome(b: seq<byte>, digits: nat, t: real, places: nat): Outcome
    requires |b| == 8 && digits <= 8
  {
    var dp := Min(places, 2);
    var p := Split(t, dp);
    if TemperatureWidth(p, dp) > digits then
      var shown := Overlay(b, Dashes(digits));
      Outcome(shown, [Frame(shown)])
    else
      TemperatureFits(digits, p, dp);
      NumberOutcome(b, digits, t, dp, Degree)
  }

  /** The as-written temperature outcome by its width rule: dashes, or the general routine. */
  lemma TemperatureOutcomeCases(b: seq<byte>, digits: nat, t: real, places: nat)
    requires |b| == 8 && digits <= 8
    ensures !TemperatureFitsOn(digits, t, places) ==>
      TemperatureOutcome(b, digits, t, places) == Outcome(Overlay(b, Dashes(digits)), [Frame(Overlay(b, Dashes(digits)))])
    ensures TemperatureFitsOn(digits, t, places) ==>
      && digits >= 2
      && TemperatureOutcome(b, digits, t, places) == NumberOutcome(b, digits, t, Min(places, 2), Blank)
      && |TemperatureOutcome(b, digits, t, places).frames| == 2
  {
    var dp := Min(places, 2);
    if TemperatureFitsOn(digits, t, places) {
      TemperatureFits(digits, Split(t, dp), dp);
      NumberOutcomeCases(b, digits, t, dp, Blank, dp, Split(t, dp));
    }
  }

  /**
   * A temperature the width rule admits on at most eight positions has at most seven integer
   * digits, so it lies well inside the int32 range that `HT16K33_DisplayNumber` casts to.
   */
  lemma FittingTemperatureInRange(digits: nat, t: real, places: nat)
    requires digits <= 8 && TemperatureFitsOn(digits, t, places)
    ensures -Int32Bound < t < Int32Bound
  {
    var dp := Min(places, 2);
    var p := Split(t, dp);
    SmallDigitCount(p.intPart, 7);
    assert Pow10(7) == 10000000;
  }

  /** -2^31, whose cast to int32 is defined, is too wide for the display: it shows dashes. */
  lemma MostNegativeTemperatureOverflows(digits: nat, places: nat)
    requires digits <= 8
    ensures !TemperatureFitsOn(digits, -Int32Bound, places)
  {
    if TemperatureFitsOn(digits, -Int32Bound, places) {
      FittingTemperatureInRange(digits, -Int32Bound, places);
    }
  }

  /**
   * As written, when the temperature fits, no frame sent carries the degree mark in the
   * last position, which holds a digit of the number that the mark later overwrites.
   */
  lemma TemperatureDegreeNeverSent(b: seq<byte>, digits: nat, t: real, places: nat)
    requires |b| == 8 && digits <= 8 && TemperatureFitsOn(digits, t, places)
    ensures var o := TemperatureOutcome(b, digits, t, places);
      && DigitOf(o.buffer[digits - 1]).Some?
      && forall k :: 0 <= k < |o.frames| ==> o.frames[k][2 * (digits - 1) + 1] != Glyph(Degree)
  {
    var dp := Min(places, 2);
    var p := Split(t, dp);
    TemperatureOutcomeCases(b, digits, t, places);
    TemperatureFits(digits, p, dp);
    NumberOutcomeCases(b, digits, t, dp, Blank, dp, p);
    var o := TemperatureOutcome(b, digits, t, places);
    var L := Layout(digits, p, dp, Blank);
    TemperatureOverwritesDigit(digits, p, dp);
    OverlayAt(b, L);
    OverlayAt(b, Zeros(digits));
    FrameSlots(Overlay(b, Zeros(digits)));
    FrameSlots(Overlay(b, L));
    assert o.buffer[digits - 1] == L[digits - 1];
  }

  /**
   * Corrected, when the temperature fits the number ends one position early, the degree
   * mark takes the last position, and the last frame sent shows it.
   */
  lemma IntendedTemperatureShowsDegree(b: seq<byte>, digits: nat, t: real, places: nat)
    requires |b| == 8 && digits <= 8 && TemperatureFitsOn(digits, t, places)
    ensures var o := IntendedTemperatureOutcome(b, digits, t, places);
      var dp := Min(places, 2);
      && o.buffer[..digits] == Layout(digits - 1, Split(t, dp), dp, Blank) + [Glyph(Degree)]
      && |o.frames| == 2 && o.frames[1] == Frame(o.buffer)
      && o.frames[1][2 * (digits - 1) + 1] == Glyph(Degree)
  {
    var dp := Min(places, 2);
    var p := Split(t, dp);
    TemperatureFits(digits, p, dp);
    NumberOutcomeCases(b, digits, t, dp, Degree, dp, p);
    DegreeAfterNumber(digits, p, dp);
    var L := Layout(digits, p, dp, Degree);
    var o := IntendedTemperatureOutcome(b, digits, t, places);
    assert o.buffer == Overlay(b, L);
    OverlayAt(b, L);
    assert o.buffer[..digits] == L;
    FrameSlots(o.buffer);
  }

  /** The two shapes of the general routine's outcome, by the width test. */
  lemma NumberOutcomeCases(b: seq<byte>, digits: nat, value: real, places: nat, symbol: nat, dp: nat, p: Parts)
    requires |b| == 8 && 1 + SymbolSpace(symbol) <= digits <= 8
    requires dp == ClampPlaces(digits, places, SymbolSpace(symbol)) && p == Split(value, dp)
    ensures Width(p, dp, symbol) > digits ==>
      NumberOutcome(b, digits, value, places, symbol) == Outcome(Overlay(b, Dashes(digits)), [Frame(Overlay(b, Dashes(digits)))])
    ensures Width(p, dp, symbol) <= digits ==>
      NumberOutcome(b, digits, value, places, symbol)
      == Outcome(Overlay(b, Layout(digits, p, dp, symbol)),
                 [Frame(Overlay(b, Zeros(digits))), Frame(Overlay(b, Layout(digits, p, dp, symbol)))])
  {
  }

  /**
   * The temperature routine up to its final degree write: decimals capped at 2, its own
   * width rule deciding the dash pattern, otherwise the general routine with no symbol.
   */
  ghost function TemperatureOutcome(b: seq<byte>, digits: nat, t: real, places: nat): Outcome
    requires |b| == 8 && digits <= 8
  {
    var dp := Min(places, 2);
    var p := Split(t, dp);
    if TemperatureWidth(p, dp) > digits then
      var shown := Overlay(b, Dashes(digits));
      Outcome(shown, [Frame(shown)])
    else
      TemperatureFits(digits, p, dp);
      NumberOutcome(b, digits, t, dp, Blank)
  }

  /** How many writes the bring-up performs: it stops after the first one that fails. */
  function InitSteps(r: seq<Status>, k: nat): (n: nat)
    ensures 1 <= n <= 4
    ensures AllOk(r, k, n - 1)
    ensures n < 4 ==> Reply(r, k + n - 1) != Ok
  {
    if Reply(r, k) != Ok then 1
    else if Reply(r, k + 1) != Ok then 2
    else if Reply(r, k + 2) != Ok then 3
    else 4
  }

  /** The bring-up commands, in order: oscillator on, display on without blinking, full brightness. */
  const InitCommands: seq<seq<byte>> := [[OscillatorOn], [DisplayOn], [BrightnessCommand(15)]]

  /** The `m` writes from the k-th on all succeed. */
  predicate AllOk(r: seq<Status>, k: nat, m: nat)
  {
    forall i :: k <= i < k + m ==> Reply(r, i) == Ok
  }

  /** Bring-up reports success exactly when all four writes succeed. */
  lemma InitSucceedsIffAllWritesDo(r: seq<Status>, k: nat)
    ensures Reply(r, k + InitSteps(r, k) - 1) == Ok <==> AllOk(r, k, 4)
  {
    if AllOk(r, k, 4) {
      assert Reply(r, k) == Ok && Reply(r, k + 1) == Ok && Reply(r, k + 2) == Ok;
      assert InitSteps(r, k) == 4;
    }
  }

  /** Taking `% 10` and `/ 10` of what is left peels the next digit off the right end. */
  lemma PeelDigit(n: nat, k: nat, temp: nat, m: nat)
    requires 1 <= m <= k && Digits(n, k)[..m] == Digits(temp, m)
    ensures Digits(n, k)[m - 1] == temp % 10
    ensures Digits(n, k)[..m - 1] == Digits(temp / 10, m - 1)
  {
    assert Digits(temp, m) == Digits(temp / 10, m - 1) + [temp % 10];
    assert Digits(n, k)[..m - 1] == Digits(n, k)[..m][..m - 1];
  }

  /** The low `k` decimal digits of `f`, least significant first (the driver's scratch order). */
  method FractionDigitsLsb(f: nat, k: nat) returns (ds: seq<nat>)
    ensures |ds| == k
    ensures forall j :: 0 <= j < k ==> ds[j] == Digits(f, k)[k - 1 - j]
  {
    ds := [];
    var temp := f;
    for i := 0 to k
      invariant |ds| == i
      invariant Digits(f, k)[..k - i] == Digits(temp, k - i)
      invariant forall j :: 0 <= j < i ==> ds[j] == Digits(f, k)[k - 1 - j]
    {
      PeelDigit(f, k, temp, k - i);
      ds := ds + [temp % 10];
      temp := temp / 10;
    }
  }

  /**
   * After peeling `ds` off `n` (least significant first) what is left is `temp`: the digits
   * peeled are the low ones of n, and temp holds the rest.
   */
  ghost predicate Peeled(n: nat, temp: nat, ds: seq<nat>)
  {
    var K := DigitCount(n);
    && |ds| <= K
    && (temp > 0 ==> DigitCount(temp) == K - |ds|)
    && (temp == 0 ==> |ds| == K)
    && Digits(n, K)[..K - |ds|] == Digits(temp, K - |ds|)
    && forall j :: 0 <= j < |ds| ==> ds[j] == Digits(n, K)[K - 1 - j]
  }

  lemma PeelStep(n: nat, temp: nat, ds: seq<nat>)
    requires Peeled(n, temp, ds) && temp > 0
    ensures Peeled(n, temp / 10, ds + [temp % 10])
  {
    var K := DigitCount(n);
    var m := K - |ds|;
    var ds' := ds + [temp % 10];
    PeelDigit(n, K, temp, m);
    if temp >= 10 {
      assert DigitCount(temp / 10) == m - 1;
    } else {
      assert temp / 10 == 0 && m == 1;
    }
    forall j | 0 <= j < |ds'| ensures ds'[j] == Digits(n, K)[K - 1 - j] {
      if j < |ds| {
        assert ds'[j] == ds[j];
      }
    }
  }

  /** All decimal digits of a positive `n`, least significant first, taken until nothing is left. */
  method IntegerDigitsLsb(n: nat) returns (ds: seq<nat>)
    requires n > 0
    ensures |ds| == DigitCount(n)
    ensures forall j :: 0 <= j < |ds| ==> ds[j] == DecimalDigits(n)[|ds| - 1 - j]
  {
    ds := [];
    var temp := n;
    while temp > 0
      invariant Peeled(n, temp, ds)
      decreases temp
    {
      PeelStep(n, temp, ds);
      ds := ds + [temp % 10];
      temp := temp / 10;
    }
  }

  /** The digit count of a number, counted as the driver does (at least one digit). */
  method CountDigits(n: nat) returns (count: nat)
    ensures count == DigitCount(n)
  {
    count := 1;
    var temp: nat := n / 10;
    while temp > 0
      invariant temp > 0 ==> count + DigitCount(temp) == DigitCount(n)
      invariant temp == 0 ==> count == DigitCount(n)
      decreases temp
    {
      count := count + 1;
      temp := temp / 10;
    }
  }

  /** C integer division, which truncates toward zero. */
  function CQuot(a: int, b: int): (q: int)
    requires b > 0
    ensures IntAbs(a - b * q) < b
    ensures a - b * q == 0 || (a - b * q < 0 <==> a < 0)
  {
    if a >= 0 then a / b else -((-a) / b)
  }

  function IntAbs(a: int): nat
  {
    if a < 0 then -a else a
  }

  /** The temperature routine's digit count of a signed integer: divide by 10 until zero. */
  method TemperatureDigits(ip: int) returns (count: nat)
    ensures count == DigitCount(IntAbs(ip))
  {
    count := 1;
    var temp := CQuot(ip, 10);
    while temp != 0
      invariant temp != 0 ==> count + DigitCount(IntAbs(temp)) == DigitCount(IntAbs(ip))
      invariant temp == 0 ==> count == DigitCount(IntAbs(ip))
      decreases IntAbs(temp)
    {
      count := count + 1;
      temp := CQuot(temp, 10);
    }
  }

  /**
   * The buffer while a number is drawn: `start` blanks, the cells drawn so far, `free`
   * cleared positions still to draw, and the positions past the display left as they were.
   */
  ghost function Canvas(start: nat, w: seq<byte>, free: nat, tail: seq<byte>): seq<byte>
  {
    Zeros(start) + w + (Zeros(free) + tail)
  }

  /** Drawing the next cell. */
  lemma PutCell(start: nat, w: seq<byte>, free: nat, tail: seq<byte>, x: byte)
    requires free >= 1
    ensures |Canvas(start, w, free, tail)| == start + |w| + free + |tail|
    ensures Canvas(start, w, free, tail)[start + |w| := x] == Canvas(start, w + [x], free - 1, tail)
  {
    var a := Zeros(start) + w;
    var rest := Zeros(free - 1) + tail;
    assert Zeros(free) == [0x00] + Zeros(free - 1);
    assert Canvas(start, w, free, tail) == a + [0x00] + rest;
    assert Canvas(start, w + [x], free - 1, tail) == a + [x] + rest;
    UpdateMiddle(a, 0x00, x, rest);
  }

  /** Lighting the decimal point on the last cell drawn. */
  lemma PutDot(start: nat, w: seq<byte>, g: seq<byte>, free: nat, tail: seq<byte>)
    requires |g| > 0
    ensures var k := start + |w| + |g| - 1;
      var before := Canvas(start, w + g, free, tail);
      k < |before| && before[k := before[k] | DotBit] == Canvas(start, w + MarkDot(g, true), free, tail)
  {
    var a := Zeros(start) + w;
    var rest := Zeros(free) + tail;
    var j := |g| - 1;
    var marked := MarkDot(g, true);
    assert marked == g[j := g[j] | DotBit];
    assert Canvas(start, w + g, free, tail) == a + g + rest;
    assert Canvas(start, w + marked, free, tail) == a + marked + rest;
    assert |a| + j == start + |w| + |g| - 1;
    UpdateInside(a, g, rest, j, g[j] | DotBit);
  }

  lemma UpdateInside(a: seq<byte>, g: seq<byte>, c: seq<byte>, j: nat, y: byte)
    requires j < |g|
    ensures (a + g + c)[|a| + j] == g[j]
    ensures (a + g + c)[|a| + j := y] == a + g[j := y] + c
  {
  }

  /** Right after the clear, the canvas is empty. */
  lemma ClearedCanvas(b: seq<byte>, digits: nat, start: nat)
    requires start <= digits <= |b|
    ensures Overlay(b, Zeros(digits)) == Canvas(start, [], digits - start, b[digits..])
  {
    assert Zeros(digits) == Zeros(start) + Zeros(digits - start);
  }

  /** Without decimals the run is the sign and the plain integer digits. */
  lemma NoPlaces(p: Parts)
    ensures SignCells(p) + IntCells(p, 0) + FracCells(p, 0) == SignCells(p) + Glyphs(DecimalDigits(p.intPart))
  {
    assert FracCells(p, 0) == [];
  }

  /** Once every position is drawn, the canvas is the layout over the old buffer. */
  lemma FinishedCanvas(b: seq<byte>, digits: nat, p: Parts, dp: nat, symbol: nat)
    requires Width(p, dp, symbol) <= digits <= |b|
    ensures Canvas(digits - Width(p, dp, symbol), Cells(p, dp, symbol), 0, b[digits..])
            == Overlay(b, Layout(digits, p, dp, symbol))
  {
    assert Zeros(0) + b[digits..] == b[digits..];
  }

  lemma UpdateMiddle(a: seq<byte>, x: byte, y: byte, c: seq<byte>)
    ensures (a + [x] + c)[|a|] == x
    ensures (a + [x] + c)[|a| := y] == a + [y] + c
  {
  }

  /** Logging the next write of a fixed sequence extends the logged prefix by one. */
  lemma LogStep(log: seq<seq<byte>>, all: seq<seq<byte>>, k: nat)
    requires k < |all|
    ensures log + all[..k] + [all[k]] == log + all[..k + 1]
  {
    assert all[..k] + [all[k]] == all[..k + 1];
  }

  /** Multiply by ten `n` times, as the driver scales the fraction. */
  method ScaleUp(x: real, n: u8) returns (y: real)
    ensures y == x * Pow10(n as nat) as real
  {
    y := x;
    ghost var P := 1;
    for i := 0 to n
      invariant P == Pow10(i as nat) && y == x * P as real
    {
      ScaleStep(x, P);
      y := y * 10.0;
      P := 10 * P;
    }
  }

  /** The split, in the terms the driver computes it in. */
  lemma SplitOf(value: real, dp: nat, number: real, intPart: int, fractional: real)
    requires number == Abs(value) && intPart == number.Floor
    requires fractional == (number - intPart as real) * Pow10(dp) as real
    ensures intPart >= 0 && (fractional + 0.5).Floor >= 0
    ensures Split(value, dp) == Parts(value < 0.0, intPart, (fractional + 0.5).Floor)
  {
    assert fractional == ScaledRemainder(number, Pow10(dp));
  }

  lemma ScaleStep(f: real, P: nat)
    ensures f * P as real * 10.0 == f * (10 * P) as real
  {
  }

  lemma GlyphsSnoc(ds: seq<nat>, m: nat)
    requires m < |ds|
    ensures Glyphs(ds[..m + 1]) == Glyphs(ds[..m]) + [Glyph(ds[m])]
  {
  }

  class Device {
    /** The bus address the chip is written at. */
    var address: byte
    /** How many digit positions the display has (at most 8 once initialised). */
    var digits: u8
    /** Dimming level 0..15. */
    var brightness: u8
    /** Segment pattern of each digit position. */
    const buffer: array<byte>
    /** The statuses the bus answers with, in order, and how many writes it has answered. */
    const script: seq<Status>
    var answered: nat
    /** Every byte sequence written to the bus so far. */
    ghost var sent: seq<seq<byte>>

    ghost predicate Valid()
      reads this
    {
      buffer.Length == 8 && digits <= 8 && brightness <= 15
    }

    /** A zero-initialised handle on a bus that will answer with `script`. */
    constructor (script: seq<Status>)
      ensures Valid() && fresh(buffer)
      ensures buffer[..] == Zeros(8) && address == 0 && digits == 0 && brightness == 0
      ensures this.script == script && answered == 0 && sent == []
    {
      address, digits, brightness := 0, 0, 0;
      buffer := new byte[8](_ => 0x00);
      this.script, answered, sent := script, 0, [];
    }

    /** One bus write: the bytes are logged and the next scripted status is returned. */
    method Transmit(data: seq<byte>) returns (s: Status)
      modifies this`answered, this`sent
      ensures s == Reply(script, old(answered)) && answered == old(answered) + 1
      ensures sent == old(sent) + [data]
    {
      s := Reply(script, answered);
      answered := answered + 1;
      sent := sent + [data];
    }

    /**
     * Bring-up: record the address, the digit count capped at 8, full brightness; then send
     * oscillator on, display on, the brightness command and a cleared frame, stopping at the
     * first write that fails and returning its status.
     */
    method Init(count: u8) returns (s: Status)
      requires buffer.Length == 8
      modifies this`address, this`digits, this`brightness, buffer, this`answered, this`sent
      ensures Valid()
      ensures address == BusAddress && digits == Min(count, 8) && brightness == 15
      ensures var n := InitSteps(script, old(answered));
        && s == Reply(script, old(answered) + n - 1) && answered == old(answered) + n
        && (n < 4 ==> sent == old(sent) + InitCommands[..n] && buffer[..] == old(buffer[..]))
        && (n == 4 ==> sent == old(sent) + InitCommands + [Frame(buffer[..])]
                       && buffer[..] == Overlay(old(buffer[..]), Zeros(digits)))
    {
      ghost var a0 := answered;
      address := BusAddress;
      digits := if count > 8 then 8 else count;
      brightness := 15;
      s := SendBringUp();
      if s != Ok {
        return;
      }
      assert InitCommands[..3] == InitCommands;
      s := Clear();
    }

    /** The three bring-up commands at full brightness, stopping at the first that fails. */
    method SendBringUp() returns (s: Status)
      requires Valid() && brightness == 15
      modifies this`brightness, this`answered, this`sent
      ensures Valid() && brightness == 15
      ensures var n := InitSteps(script, old(answered));
        var m := Min(n, 3);
        && answered == old(answered) + m && sent == old(sent) + InitCommands[..m]
        && s == Reply(script, old(answered) + m - 1) && (s == Ok <==> n == 4)
    {
      ghost var log, a0, all := sent, answered, InitCommands;
      s := Transmit([OscillatorOn]);
      LogStep(log, all, 0);
      if s != Ok {
        assert InitSteps(script, a0) == 1;
        return;
      }
      s := Transmit([DisplayOn]);
      LogStep(log, all, 1);
      if s != Ok {
        assert InitSteps(script, a0) == 2;
        return;
      }
      s := SetBrightness(brightness);
      LogStep(log, all, 2);
      assert InitSteps(script, a0) == if s == Ok then 4 else 3;
    }

    /** Blank the configured positions (positions past `digits` are kept) and flush. */
    method Clear() returns (s: Status)
      requires Valid()
      modifies buffer, this`answered, this`sent
      ensures Valid()
      ensures buffer[..] == Overlay(old(buffer[..]), Zeros(digits))
      ensures sent == old(sent) + [Frame(buffer[..])]
      ensures s == Reply(script, old(answered)) && answered == old(answered) + 1
    {
      for i := 0 to digits
        modifies buffer
        invariant buffer[..] == Overlay(old(buffer[..]), Zeros(i))
      {
        OverlaySnoc(old(buffer[..]), Zeros(i as nat), 0x00);
        ZerosSnoc(i as nat);
        buffer[i] := 0x00;
      }
      s := WriteDisplay();
    }

    /** Store the clamped level first (so it is kept even if the write fails), then send it. */
    method SetBrightness(level: u8) returns (s: Status)
      requires Valid()
      modifies this`brightness, this`answered, this`sent
      ensures Valid() && brightness == Min(level, 15)
      ensures sent == old(sent) + [[BrightnessCommand(level)]]
      ensures s == Reply(script, old(answered)) && answered == old(answered) + 1
    {
      var b := level;
      if b > 15 {
        b := 15;
      }
      brightness := b;
      var cmd := BrightnessBase | (b as byte);
      s := Transmit([cmd]);
    }

    /**
     * Re-enable the oscillator (its status is ignored), then send the display-setup byte for
     * the blink mode and return that write's status.
     */
    method SetBlink(mode: u8) returns (s: Status)
      modifies this`answered, this`sent
      ensures sent == old(sent) + [[OscillatorOn], [BlinkCommand(mode)]]
      ensures s == Reply(script, old(answered) + 1) && answered == old(answered) + 2
    {
      var _ := Transmit([OscillatorOn]);
      var cmd := BlinkCommand(mode);
      s := Transmit([cmd]);
    }

    /** Send the whole buffer as one 17-byte frame, whatever `digits` is. */
    method WriteDisplay() returns (s: Status)
      requires Valid()
      modifies this`answered, this`sent
      ensures sent == old(sent) + [Frame(buffer[..])]
      ensures s == Reply(script, old(answered)) && answered == old(answered) + 1
    {
      var data := new byte[17];
      data[0] := 0x00;
      for i := 0 to 8
        modifies data
        invariant data[0] == 0x00
        invariant forall j :: 0 <= j < i ==> data[2 * j + 1] == buffer[j] && data[2 * j + 2] == 0x00
      {
        data[2 * i + 1] := buffer[i];
        data[2 * i + 2] := 0x00;
      }
      FrameFromSlots(data[..], buffer[..]);
      s := Transmit(data[..]);
    }

    /** The number of decimal places the display can show next to a symbol cell. */
    method ClampedPlaces(places: u8, symbol: u8) returns (dp: u8)
      requires Valid() && digits as int >= 1 + SymbolSpace(symbol)
      ensures dp as nat == ClampPlaces(digits as nat, places as nat, SymbolSpace(symbol as nat))
    {
      dp := places;
      if dp as int > digits as int - 1 {
        dp := digits - 1;
      }
      var space: u8 := if symbol != Blank then 1 else 0;
      if dp as int + space as int > digits as int - 1 {
        dp := digits - 1 - space;
      }
    }

    /** The cells a split number needs, counted as the driver counts them. */
    method CountWidth(negative: bool, intPart: nat, dp: u8, symbol: u8, ghost fracInt: nat) returns (total: nat)
      ensures total == Width(Parts(negative, intPart, fracInt), dp as nat, symbol as nat)
    {
      var intDigits := CountDigits(intPart);
      if intPart == 0 {
        intDigits := 1;
      }
      total := intDigits + dp as nat;
      if negative {
        total := total + 1;
      }
      if symbol != Blank {
        total := total + 1;
      }
    }

    /**
     * The arithmetic half of the number display: the decimal places after both clamps, the
     * sign, the truncated integer part, the scaled and rounded fraction, and the width.
     */
    method SplitNumber(value: real, places: u8, symbol: u8)
      returns (dp: u8, negative: bool, intPart: nat, fracInt: nat, total: nat)
      requires Valid() && digits as int >= 1 + SymbolSpace(symbol)
      requires -Int32Bound < value < Int32Bound
      ensures dp as nat == ClampPlaces(digits as nat, places as nat, SymbolSpace(symbol as nat))
      ensures Parts(negative, intPart, fracInt) == Split(value, dp as nat)
      ensures total == Width(Split(value, dp as nat), dp as nat, symbol as nat)
    {
      dp := ClampedPlaces(places, symbol);
      negative := false;
      var number := value;
      if number < 0.0 {
        negative := true;
        number := -number;
      }
      intPart := number.Floor;
      var fractional := ScaleUp(number - intPart as real, dp);
      assert number == Abs(value);
      SplitOf(value, dp as nat, number, intPart, fractional);
      fracInt := (fractional + 0.5).Floor;
      total := CountWidth(negative, intPart, dp, symbol, fracInt);
    }

    /**
     * Draw digits from `pos` on, most significant first, given them least significant first
     * as the driver's scratch array holds them.
     */
    method DrawDigits(pos: nat, lsb: seq<nat>, ghost ds: seq<nat>, ghost start: nat, ghost w: seq<byte>, ghost tail: seq<byte>)
      returns (next: nat)
      requires Valid() && |lsb| == |ds| && pos == start + |w| && pos + |ds| <= digits as int
      requires forall j :: 0 <= j < |ds| ==> lsb[j] == ds[|ds| - 1 - j] < 10
      requires buffer[..] == Canvas(start, w, digits as int - pos, tail)
      modifies buffer
      ensures next == pos + |ds|
      ensures buffer[..] == Canvas(start, w + Glyphs(ds), digits as int - next, tail)
    {
      next := pos;
      var i := |lsb| - 1;
      while i >= 0
        invariant -1 <= i < |lsb|
        invariant next == pos + |ds| - 1 - i
        invariant buffer[..] == Canvas(start, w + Glyphs(ds[..|ds| - 1 - i]), digits as int - next, tail)
      {
        DrawDigitAt(next, lsb[i] as u8, ds, |ds| - 1 - i, start, w, tail);
        next := next + 1;
        i := i - 1;
      }
      assert ds[..|ds|] == ds;
    }

    /** Draw digit m of `ds` at `next`, after the m digits before it. */
    method DrawDigitAt(next: nat, d: u8, ghost ds: seq<nat>, ghost m: nat, ghost start: nat, ghost w: seq<byte>, ghost tail: seq<byte>)
      requires Valid() && m < |ds| && ds[m] == d as nat && next == start + |w| + m < digits as int
      requires buffer[..] == Canvas(start, w + Glyphs(ds[..m]), digits as int - next, tail)
      modifies buffer
      ensures buffer[..] == Canvas(start, w + Glyphs(ds[..m + 1]), digits as int - next - 1, tail)
    {
      DrawCell(next, d, start, w + Glyphs(ds[..m]), tail);
      GlyphsSnoc(ds, m);
      assert w + Glyphs(ds[..m]) + [Glyph(d as nat)] == w + Glyphs(ds[..m + 1]);
    }

    /** Fill every position with a minus sign, the driver's overflow display. */
    method ShowDashes()
      requires Valid()
      modifies buffer
      ensures buffer[..] == Overlay(old(buffer[..]), Dashes(digits as nat))
    {
      ghost var b0 := buffer[..];
      for i := 0 to digits
        invariant buffer[..] == Overlay(b0, Dashes(i as nat))
      {
        OverlaySnoc(b0, Dashes(i as nat), Glyph(Minus));
        DashesSnoc(i as nat);
        var _ := SetDigit(i, Minus as u8, false);
      }
    }

    /** Draw the cell `x` at `pos`, the next free position of the canvas. */
    method DrawCell(pos: nat, x: u8, ghost start: nat, ghost w: seq<byte>, ghost tail: seq<byte>)
      requires Valid() && pos == start + |w| < digits as int
      requires buffer[..] == Canvas(start, w, digits as int - pos, tail)
      modifies buffer
      ensures buffer[..] == Canvas(start, w + [Glyph(x as nat)], digits as int - pos - 1, tail)
    {
      PutCell(start, w, digits as int - pos, tail, Glyph(x as nat));
      var _ := SetDigit(pos as u8, x, false);
    }

    /** Draw the decimal digits of `n` from `pos` on; zero is one digit. */
    method DrawInteger(pos: nat, n: nat, ghost start: nat, ghost w: seq<byte>, ghost tail: seq<byte>)
      returns (next: nat)
      requires Valid() && pos == start + |w| && pos + DigitCount(n) <= digits as int
      requires buffer[..] == Canvas(start, w, digits as int - pos, tail)
      modifies buffer
      ensures next == pos + DigitCount(n)
      ensures buffer[..] == Canvas(start, w + Glyphs(DecimalDigits(n)), digits as int - next, tail)
    {
      if n == 0 {
        DrawCell(pos, 0, start, w, tail);
        assert Glyphs(DecimalDigits(n)) == [Glyph(0)];
        next := pos + 1;
      } else {
        var lsb := IntegerDigitsLsb(n);
        next := DrawDigits(pos, lsb, DecimalDigits(n), start, w, tail);
      }
    }

    /** Put the point on the last integer digit, then draw the `dp` fraction digits. */
    method DrawFraction(pos: nat, fracInt: nat, dp: u8, ghost start: nat, ghost p: Parts, ghost tail: seq<byte>)
      returns (next: nat)
      requires Valid() && dp > 0 && p.fracInt == fracInt
      requires pos == start + |SignCells(p)| + DigitCount(p.intPart) && pos + dp as nat <= digits as int
      requires buffer[..] == Canvas(start, SignCells(p) + Glyphs(DecimalDigits(p.intPart)), digits as int - pos, tail)
      modifies buffer
      ensures next == pos + dp as nat
      ensures buffer[..] == Canvas(start, SignCells(p) + IntCells(p, dp as nat) + FracCells(p, dp as nat), digits as int - next, tail)
    {
      LightDot(pos, start, SignCells(p), Glyphs(DecimalDigits(p.intPart)), tail);
      ghost var w := SignCells(p) + IntCells(p, dp as nat);
      var lsb := FractionDigitsLsb(fracInt, dp as nat);
      next := DrawDigits(pos, lsb, Digits(fracInt, dp as nat), start, w, tail);
    }

    /** Light the decimal point of the cell just before `pos`, the last of `g`. */
    method LightDot(pos: nat, ghost start: nat, ghost w: seq<byte>, ghost g: seq<byte>, ghost tail: seq<byte>)
      requires Valid() && |g| > 0 && pos == start + |w| + |g| <= digits as int
      requires buffer[..] == Canvas(start, w + g, digits as int - pos, tail)
      modifies buffer
      ensures buffer[..] == Canvas(start, w + MarkDot(g, true), digits as int - pos, tail)
    {
      var dotPos := pos - 1;
      PutDot(start, w, g, digits as int - pos, tail);
      buffer[dotPos] := buffer[dotPos] | DotBit;
    }

    /** Draw the sign, the integer digits and the decimals of `p` from `start` on a blank canvas. */
    method DrawRun(p: Parts, dp: u8, start: nat, ghost tail: seq<byte>) returns (pos: nat)
      requires Valid() && start + |SignCells(p)| + DigitCount(p.intPart) + dp as nat <= digits as int
      requires buffer[..] == Canvas(start, [], digits as int - start, tail)
      modifies buffer
      ensures pos == start + |SignCells(p)| + DigitCount(p.intPart) + dp as nat
      ensures buffer[..] == Canvas(start, SignCells(p) + IntCells(p, dp as nat) + FracCells(p, dp as nat), digits as int - pos, tail)
    {
      pos := start;
      ghost var w: seq<byte> := [];
      if p.negative {
        DrawCell(pos, Minus as u8, start, w, tail);
        pos, w := pos + 1, w + [Glyph(Minus)];
      }
      assert w == SignCells(p);
      pos := DrawInteger(pos, p.intPart, start, w, tail);
      if dp > 0 {
        pos := DrawFraction(pos, p.fracInt, dp, start, p, tail);
      } else {
        NoPlaces(p);
      }
    }

    /** Draw a split number right-aligned over cleared positions. */
    method DrawNumber(p: Parts, dp: u8, symbol: u8, total: nat, ghost tail: seq<byte>)
      requires Valid() && total <= digits as int && total == Width(p, dp as nat, symbol as nat)
      requires buffer[..] == Canvas(digits as int - total, [], total, tail)
      modifies buffer
      ensures buffer[..] == Canvas(digits as int - total, Cells(p, dp as nat, symbol as nat), 0, tail)
    {
      var start := digits as int - total;
      var pos := DrawRun(p, dp, start, tail);
      DrawSymbol(pos, symbol, start, SignCells(p) + IntCells(p, dp as nat) + FracCells(p, dp as nat), tail);
    }

    /** Draw the trailing symbol at `pos`, unless it is the blank, which takes no position. */
    method DrawSymbol(pos: nat, symbol: u8, ghost start: nat, ghost w: seq<byte>, ghost tail: seq<byte>)
      requires Valid() && pos == start + |w| && pos + SymbolSpace(symbol as nat) <= digits as int
      requires buffer[..] == Canvas(start, w, digits as int - pos, tail)
      modifies buffer
      ensures buffer[..] == Canvas(start, w + SymbolCells(symbol as nat), digits as int - pos - SymbolSpace(symbol as nat), tail)
    {
      if symbol != Blank {
        DrawCell(pos, symbol, start, w, tail);
      } else {
        assert w + SymbolCells(symbol as nat) == w;
      }
    }

    /** The overflow path: dashes everywhere, then send. */
    method ShowOverflow() returns (s: Status)
      requires Valid()
      modifies buffer, this`answered, this`sent
      ensures buffer[..] == Overlay(old(buffer[..]), Dashes(digits as nat))
      ensures sent == old(sent) + [Frame(buffer[..])]
      ensures s == Reply(script, old(answered)) && answered == old(answered) + 1
    {
      ShowDashes();
      s := WriteDisplay();
    }

    /** The normal path: clear and send, draw the run, send again. */
    method ShowNumber(p: Parts, dp: u8, symbol: u8, total: nat) returns (s: Status)
      requires Valid() && total <= digits as int && total == Width(p, dp as nat, symbol as nat)
      modifies buffer, this`answered, this`sent
      ensures buffer[..] == Overlay(old(buffer[..]), Layout(digits as nat, p, dp as nat, symbol as nat))
      ensures sent == old(sent) + [Frame(Overlay(old(buffer[..]), Zeros(digits as nat))), Frame(buffer[..])]
      ensures s == Reply(script, old(answered) + 1) && answered == old(answered) + 2
    {
      ghost var b0 := buffer[..];
      var _ := Clear();
      ghost var sent1, answered1 := sent, answered;
      ClearedCanvas(b0, digits as nat, digits as int - total);
      DrawNumber(p, dp, symbol, total, b0[digits..]);
      FinishedCanvas(b0, digits as nat, p, dp as nat, symbol as nat);
      assert sent == sent1 && answered == answered1;
      s := WriteDisplay();
    }

    /**
     * Show a number right-aligned with `places` decimals (clamped to what fits) and an
     * optional trailing symbol. Too wide a number shows a dash on every position; otherwise
     * the display is cleared and flushed, the run is drawn, and the result is flushed.
     */
    method DisplayNumber(value: real, places: u8, symbol: u8) returns (s: Status)
      requires Valid() && digits as int >= 1 + SymbolSpace(symbol)
      requires -Int32Bound < value < Int32Bound
      modifies buffer, this`answered, this`sent
      ensures var o := NumberOutcome(old(buffer[..]), digits as nat, value, places as nat, symbol as nat);
        && buffer[..] == o.buffer && sent == old(sent) + o.frames
        && s == Reply(script, old(answered) + |o.frames| - 1) && answered == old(answered) + |o.frames|
    {
      ghost var b0 := buffer[..];
      var dp, negative, intPart, fracInt, total := SplitNumber(value, places, symbol);
      NumberOutcomeCases(b0, digits as nat, value, places as nat, symbol as nat, dp as nat, Parts(negative, intPart, fracInt));
      if total > digits as int {
        s := ShowOverflow();
      } else {
        s := ShowNumber(Parts(negative, intPart, fracInt), dp, symbol, total);
      }
    }

    /** An integer shown with no decimals and no symbol. */
    method DisplayInteger(n: int) returns (s: Status)
      requires Valid() && digits >= 1 && -0x8000_0000 < n < 0x8000_0000
      modifies buffer, this`answered, this`sent
      ensures var o := NumberOutcome(old(buffer[..]), digits as nat, n as real, 0, Blank);
        && buffer[..] == o.buffer && sent == old(sent) + o.frames
        && s == Reply(script, old(answered) + |o.frames| - 1) && answered == old(answered) + |o.frames|
    {
      s := DisplayNumber(n as real, 0, Blank);
    }

    /** A value shown with up to `places` decimals and no symbol. */
    method DisplayFloat(value: real, places: u8) returns (s: Status)
      requires Valid() && digits >= 1 && -Int32Bound < value < Int32Bound
      modifies buffer, this`answered, this`sent
      ensures var o := NumberOutcome(old(buffer[..]), digits as nat, value, places as nat, Blank);
        && buffer[..] == o.buffer && sent == old(sent) + o.frames
        && s == Reply(script, old(answered) + |o.frames| - 1) && answered == old(answered) + |o.frames|
    {
      s := DisplayNumber(value, places, Blank);
    }

    /** The temperature routine's decimals (at most 2) and its count of positions. */
    method TemperatureSize(t: real, places: u8) returns (dp: u8, total: nat)
      requires -Int32Bound - 1.0 < t < Int32Bound
      ensures dp as nat == Min(places as nat, 2)
      ensures total == TemperatureWidth(Split(t, dp as nat), dp as nat)
    {
      dp := places;
      if dp > 2 {
        dp := 2;
      }
      var integerPart := Trunc(t);
      var intDigits := TemperatureDigits(integerPart);
      if t < 0.0 {
        intDigits := intDigits + 1;
      }
      total := intDigits + dp as nat;
      if dp > 0 {
        total := total + 1;
      }
      total := total + 1;
      SplitIntPartIsTrunc(t, dp as nat);
    }

    /**
     * As written: the number goes right-aligned with no symbol, then, only when that send
     * succeeded, the degree mark replaces the last position in the buffer and is not sent.
     */
    method DisplayTemperature(t: real, places: u8) returns (s: Status)
      requires Valid() && -Int32Bound - 1.0 < t < Int32Bound
      modifies buffer, this`answered, this`sent
      ensures var o := TemperatureOutcome(old(buffer[..]), digits as nat, t, places as nat);
        var last := Reply(script, old(answered) + |o.frames| - 1);
        && sent == old(sent) + o.frames && answered == old(answered) + |o.frames|
        && if TemperatureFitsOn(digits as nat, t, places as nat) && last == Ok
           then buffer[..] == o.buffer[digits - 1 := Glyph(Degree)] && s == Ok
           else buffer[..] == o.buffer && s == last
    {
      var dp, total := TemperatureSize(t, places);
      if total > digits as int {
        TemperatureOutcomeCases(buffer[..], digits as nat, t, places as nat);
        s := ShowOverflow();
      } else {
        FittingTemperatureInRange(digits as nat, t, places as nat);
        s := ShowTemperature(t, places, dp);
      }
    }

    /** The path of a temperature that fits: the number and its send, then the mark if that succeeded. */
    method ShowTemperature(t: real, places: u8, dp: u8) returns (s: Status)
      requires Valid() && -Int32Bound < t < Int32Bound && dp as nat == Min(places as nat, 2)
      requires TemperatureFitsOn(digits as nat, t, places as nat)
      modifies buffer, this`answered, this`sent
      ensures var o := TemperatureOutcome(old(buffer[..]), digits as nat, t, places as nat);
        var last := Reply(script, old(answered) + 1);
        && sent == old(sent) + o.frames && answered == old(answered) + 2
        && if last == Ok then buffer[..] == o.buffer[digits - 1 := Glyph(Degree)] && s == Ok
           else buffer[..] == o.buffer && s == last
    {
      ghost var o := NumberOutcome(buffer[..], digits as nat, t, dp as nat, Blank);
      ghost var a0 := answered;
      TemperatureOutcomeCases(buffer[..], digits as nat, t, places as nat);
      assert |o.frames| == 2 && digits >= 2;
      s := DisplayNumber(t, dp, Blank);
      assert buffer[..] == o.buffer && s == Reply(script, a0 + 1) && answered == a0 + 2;
      if s != Ok {
        return;
      }
      s := SetDigit(digits - 1, Degree as u8, false);
    }

    /** Corrected: the degree mark is the number's symbol, laid out after it and sent with it. */
    method DisplayTemperatureIntended(t: real, places: u8) returns (s: Status)
      requires Valid() && -Int32Bound - 1.0 < t < Int32Bound
      modifies buffer, this`answered, this`sent
      ensures var o := IntendedTemperatureOutcome(old(buffer[..]), digits as nat, t, places as nat);
        && buffer[..] == o.buffer && sent == old(sent) + o.frames
        && s == Reply(script, old(answered) + |o.frames| - 1) && answered == old(answered) + |o.frames|
    {
      var dp, total := TemperatureSize(t, places);
      if total > digits as int {
        s := ShowOverflow();
        return;
      }
      FittingTemperatureInRange(digits as nat, t, places as nat);
      TemperatureFits(digits as nat, Split(t, dp as nat), dp as nat);
      s := DisplayNumber(t, dp, Degree as u8);
    }

    /** Put the pattern of symbol `digit` (blank past the table), with the point iff `dot`. */
    method SetDigit(position: u8, digit: u8, dot: bool) returns (s: Status)
      requires Valid()
      modifies buffer
      ensures s == (if position < digits then Ok else Error)
      ensures buffer[..] == if position < digits then old(buffer[..])[position := DigitPattern(digit, dot)]
                            else old(buffer[..])
    {
      if position >= digits {
        return Error;
      }
      var d := digit;
      if d > Degree {
        d := Blank;
      }
      var segments := SegmentMap[d];
      if dot {
        segments := segments | DotBit;
      }
      buffer[position] := segments;
      return Ok;
    }

    /** Put a raw segment byte. */
    method SetSegments(position: u8, segments: byte) returns (s: Status)
      requires Valid()
      modifies buffer
      ensures s == (if position < digits then Ok else Error)
      ensures buffer[..] == if position < digits then old(buffer[..])[position := segments]
                            else old(buffer[..])
    {
      if position >= digits {
        return Error;
      }
      buffer[position] := segments;
      return Ok;
    }
  }
}
