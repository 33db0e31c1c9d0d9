# HT16K33 seven-segment driver, modelled in Dafny

This project models the HT16K33 LED driver in `ht16k33.c` and `ht16k33.h`. The driver owns a
device handle: the bus address, the number of digit positions (at most 8), a brightness
level and an 8-byte display buffer holding one segment pattern per position. It offers:

- bring-up (`HT16K33_Init`);
- brightness and blink commands;
- per-position edits of the buffer (`SetDigit`, `SetSegments`);
- a flush that sends the buffer as one 17-byte display-RAM write;
- number formatting routines (integer, float, general number with a trailing symbol,
  temperature).

The formatting routines render a value right-aligned in the buffer and flush it.

The model is split into modules:

- `Bytes` holds bytes as `bv8` and C `uint8_t` parameters as the subset type `u8`.
- `Segments` holds the 20-entry glyph table and how `SetDigit` builds a buffer byte.
- `Protocol` holds the command bytes, the bus address and the 17-byte frame.
- `Decimal` holds powers of ten, digit counts and the digit sequences of a natural number.
- `Render` holds the pure specification of what the number routines put in the buffer:
  - decimal-place clamping;
  - the split of a value into sign, truncated integer part and rounded scaled fraction;
  - the width check;
  - the right-aligned layout;
  - worked examples;
  - the rounding and temperature discrepancies.
- `Driver` holds the handle as the class `Device`. Its fields (`address`, `digits`,
  `brightness`, the `buffer` array) are updated in place by methods that follow the C code
  loop for loop. Every method is proved against the `Render` functions.

The bus is modelled by `Device.Transmit`:

- Each write appends its bytes to a ghost log `sent`.
- It returns the next status from a fixed `script` of replies (`Ok` once the script is
  exhausted).

So every contract says exactly which byte sequences a routine writes, in which order, and
which status it returns for any sequence of bus replies.

Where the documented behaviour and the code differ, the model follows the code:

- The temperature routine sends two frames, the cleared buffer and then the number, and
  neither carries the degree mark. The final degree write only changes the buffer,
  overwriting the number's last digit.
- Blink mode 1 sends the same byte as mode 0. It does not select a distinct rate.

## Model

| member | source | states |
|---|---|---|
| Segments.Glyph | ht16k33.c:4-24 | indices past the table's 20 entries give the blank pattern |
| Segments.GlyphUndotted | ht16k33.c:4-24 | no table pattern, nor the blank returned past the table, has the decimal-point bit |
| Segments.DigitPattern | ht16k33.c:307-313 | the byte `SetDigit` computes has the symbol's glyph in bits 6..0 and bit 7 set exactly when the dot is requested |
| Segments.DigitGlyphsDistinct | ht16k33.c:4-14 | the ten digit patterns are pairwise different |
| Segments.DigitOfPattern | ht16k33.c:303-317 | the byte written for a decimal digit, with or without the dot, reads back as that digit |
| Segments.DegreeIsNotADigit | ht16k33.c:4-24 | no digit, minus or blank pattern equals the degree pattern |
| Protocol.BusAddressIsShiftedChipAddress | ht16k33.c:33 | the address used on the bus is the 7-bit address 0x70 shifted left by one |
| Protocol.BrightnessCommand | ht16k33.c:70-78 | the brightness command has high nibble 0xE0 and low nibble min(level, 15) |
| Protocol.BlinkCommand | ht16k33.c:81-98 | the display-setup byte is 0x83 for mode 2 and 0x81 for every other mode (modes above 2 count as 0) |
| Protocol.BlinkModeOneIsSteady | ht16k33.c:90-95 | mode 1 produces the same byte as mode 0, the plain display-on command |
| Protocol.IntendedBlinkCommand | ht16k33.c:89-95 | corrected encoding: 0x81 with the mode in bits 2..1 for modes 0..2, plain display-on for others |
| Protocol.IntendedBlinkDistinguishesModes | ht16k33.c:89-95 | under the corrected encoding different modes give different bytes, and mode 0 agrees with the driver |
| Protocol.FrameSlots | ht16k33.c:100-111 | a frame holds buffer byte i at offset 2i+1 and zero at offset 2i+2 |
| Protocol.FrameFromSlots | ht16k33.c:100-111 | any 17 bytes with a zero start address and that slot layout are the frame of that buffer |
| Protocol.FrameRoundTrip | ht16k33.c:100-111 | the buffer can be read back from its frame, so distinct buffers give distinct frames |
| Decimal.DigitCountBounds | ht16k33.c:157-166 | the digit count of n is the least k with n < 10^k (one for zero) |
| Decimal.DigitsValue | ht16k33.c:236-239 | the k digits taken by repeated `% 10`,`/ 10` are n modulo 10^k |
| Decimal.DecimalDigitsValue | ht16k33.c:204-218 | the decimal digits of n, most significant first, denote n |
| Decimal.LeadingDigitNonZero | ht16k33.c:204-218 | a positive number's digit run has no leading zero |
| Render.ClampPlaces | ht16k33.c:129-138 | the rendered decimals never exceed the request nor digits-1-space, and equal the request unless that bound is hit |
| Render.Trunc | ht16k33.c:148 | C's float-to-integer conversion truncates toward zero: the result is the integer at most 1 away from the value on its side of zero |
| Render.Split | ht16k33.c:140-149 | the sign is value < 0 and the integer part is the magnitude truncated toward zero |
| Render.SplitFraction | ht16k33.c:149-155 | the fraction integer is within half a unit of the magnitude's fractional part times 10^dp (half-up rounding), and at most 10^dp |
| Render.SplitIntPartIsTrunc | ht16k33.c:264-270 | the split's integer part is the magnitude of the C int32 cast of the value, zero exactly when that cast is zero |
| Render.IntegerSplit | ht16k33.c:114-117 | an integer splits exactly into its sign and magnitude with no fraction |
| Render.Width | ht16k33.c:157-173 | the positions the general routine needs: the digit count of the integer part, the decimals, a minus sign when negative and a symbol cell unless the symbol is blank |
| Render.Cells | ht16k33.c:193-251 | the run the general routine draws: the minus sign when negative, the integer digits with the dot on the last one when there are decimals, the dp fraction digits and the symbol; its length is the width |
| Render.Layout | ht16k33.c:184-251 | the first `digits` positions after drawing: blanks, then the run right-aligned, `digits` cells in all |
| Render.LayoutSlices | ht16k33.c:187-251 | the layout is blanks, then the minus sign if negative, then the integer cells, the dp fraction cells and the symbol cell |
| Render.LayoutReadBack | ht16k33.c:187-251 | the cells before the run are blank, the minus comes first when negative, the integer cells read back as the integer part, the fraction cells as the fraction modulo 10^dp, and the symbol is last |
| Render.LayoutDotOnce | ht16k33.c:221-226 | exactly one position has the decimal point, the last integer digit, and only when there are decimals |
| Render.ZeroLayout | ht16k33.c:199-202 | zero on eight digits shows "0" in the rightmost position and blanks elsewhere |
| Render.NegativeIntegerLayout | ht16k33.c:193-218 | -123 on eight digits shows blanks, then minus, 1, 2, 3 |
| Render.FractionSplit | ht16k33.c:147-155 | 3.14 at two places splits into 3 and 14 |
| Render.FractionLayout | ht16k33.c:199-246 | 3.14 at two places on eight digits shows blanks, "3." then 1 and 4 |
| Render.OverflowAndRounding | ht16k33.c:148-176 | 12345 does not fit four digits; 1.25 at one place rounds half-up to 1.3 |
| Render.SplitDropsCarry | ht16k33.c:148-155 | as written 0.999 at two places rounds its fraction to 100, whose low two digits show 0.00, more than half a unit off |
| Render.ZeroPlacesTruncate | ht16k33.c:148-155 | with no decimals the value is truncated, as designed: 2.7 shows 2 |
| Render.RoundedSplit | ht16k33.c:148-155 | corrected split: the sign of the value and a fraction integer below 10^dp, so no carry is lost |
| Render.RoundedSplitWithinHalf | ht16k33.c:148-155 | with decimals the corrected split shows the value to within half a unit of 10^-dp, as the rounding comment at line 155 intends |
| Render.RoundedSplitZeroPlaces | ht16k33.c:148-155 | with no decimals the corrected split shows the same truncated value as the driver |
| Render.RoundedSplitWithoutCarry | ht16k33.c:148-155 | whenever the driver's rounded fraction stays below 10^dp, the corrected split equals the driver's split |
| Render.TemperatureWidth | ht16k33.c:262-280 | the temperature routine's own count: the digits of the truncated value, a sign cell when negative, the decimals, a dot cell when there are decimals and a cell for the degree mark |
| Render.TemperatureFits | ht16k33.c:277-293 | when the temperature width rule admits a value, the general routine keeps all decimals and the number fits with a position to spare |
| Render.TemperatureOverwritesDigit | ht16k33.c:292-299 | the last position of the number's layout holds one of its digits, not the degree mark |
| Render.TemperatureLosesLastDigit | ht16k33.c:256-300 | 25 on four digits lays out as blanks, 2, 5, and the degree write turns it into blanks, 2, degree |
| Render.DegreeAfterNumber | ht16k33.c:292-299 | with the degree mark as the symbol the layout is the number on one position fewer followed by the mark |
| Protocol.Frame | ht16k33.c:100-111 | the 17 bytes of the display-RAM write: start address 0, then each buffer byte followed by a zero |
| Decimal.DigitCount | ht16k33.c:157-166 | the digits the do-while counts: one for n below 10, one more than for n / 10 otherwise |
| Decimal.Digits | ht16k33.c:236-239 | the k digits taken by repeated `% 10` and `/ 10`, most significant first, each below 10 |
| Driver.InitSteps | ht16k33.c:39-58 | bring-up performs one to four writes, all before the last succeed, and it stops early only after a failure |
| Driver.InitSucceedsIffAllWritesDo | ht16k33.c:39-58 | bring-up returns success exactly when all four writes succeed |
| Driver.NumberOutcome | ht16k33.c:127-254 | what the general routine does: with the clamped decimals and the split, a value wider than the display puts dashes on the configured positions and sends that one frame; otherwise it sends the cleared buffer, then the buffer holding the layout; positions past `digits` are kept |
| Driver.TemperatureOutcome | ht16k33.c:257-295 | what the temperature routine does before its degree write: decimals capped at 2, dashes in one frame when its own width rule fails, otherwise the general routine with no symbol |
| Driver.IntendedTemperatureOutcome | ht16k33.c:257-299 | the corrected temperature routine: the same cap and width rule, then the general routine with the degree mark as its symbol |
| Driver.FittingTemperatureInRange | ht16k33.c:282-293 | a temperature the width rule admits on at most eight positions lies inside the int32 range that the general routine casts to |
| Driver.MostNegativeTemperatureOverflows | ht16k33.c:264-289 | -2^31, whose `int32_t` cast is defined, fails the temperature width rule on any display, so it shows dashes |
| Driver.NumberOutcomeCases | ht16k33.c:175-253 | the general routine either shows dashes with one frame, or sends a cleared frame and then the layout frame |
| Driver.TemperatureOutcomeCases | ht16k33.c:282-295 | the temperature routine either shows dashes with one frame, or is the general routine with no symbol, sending two frames |
| Driver.TemperatureDegreeNeverSent | ht16k33.c:291-299 | as written, no frame the temperature routine sends carries the degree mark in the last position, which holds a digit |
| Driver.IntendedTemperatureShowsDegree | ht16k33.c:276-299 | corrected, the number ends one position early, the degree mark is last and the final frame sent carries it |
| Driver.FractionDigitsLsb | ht16k33.c:229-239 | the scratch array holds the low dp digits of the fraction integer, least significant first |
| Driver.IntegerDigitsLsb | ht16k33.c:204-212 | the scratch array holds all digits of the integer part, least significant first |
| Driver.CountDigits | ht16k33.c:157-166 | the do-while loop counts the decimal digits of the integer part |
| Driver.CQuot | ht16k33.c:268 | C's integer division truncates toward zero: the remainder is smaller than the divisor and has the dividend's sign |
| Driver.TemperatureDigits | ht16k33.c:264-270 | dividing by ten (truncating) until zero counts the digits of the magnitude |
| Driver.ScaleUp | ht16k33.c:151-154 | multiplying by ten dp times scales by 10^dp |
| Driver.Device.constructor | ht16k33.h:56-63 | a fresh handle has a zero buffer and has written nothing |
| Driver.Device.Transmit | ht16k33.c:110 | a bus write logs its bytes and returns the next scripted status |
| Driver.Device.SendBringUp | ht16k33.c:39-55 | oscillator-on, display-on and brightness-15 are sent up to the first failure, and the status, that of the last write made, is success exactly when all three succeed |
| Driver.Device.Init | ht16k33.c:27-59 | the address is 0xE0, digits min(count, 8) and brightness 15; oscillator-on, display-on and brightness-15 are sent up to the first failure; if all succeed the cleared buffer is sent; the status is that of the last write made |
| Driver.Device.Clear | ht16k33.c:62-67 | the first `digits` positions become zero, the rest are kept, and the new buffer is sent |
| Driver.Device.SetBrightness | ht16k33.c:70-78 | brightness becomes min(level, 15) and exactly the brightness command is sent |
| Driver.Device.SetBlink | ht16k33.c:81-98 | oscillator-on and then the display-setup byte are sent; the status is the second write's, the first is ignored |
| Driver.Device.WriteDisplay | ht16k33.c:100-111 | exactly the 17-byte frame of the buffer is sent and its status returned |
| Driver.Device.ClampedPlaces | ht16k33.c:129-138 | the clamping code computes the clamped decimals |
| Driver.Device.CountWidth | ht16k33.c:157-173 | the counting code computes the width of the split value |
| Driver.Device.SplitNumber | ht16k33.c:129-173 | the driver's arithmetic yields the clamped decimals, the split and its width |
| Driver.Device.ShowDashes | ht16k33.c:176-180 | every configured position shows the minus pattern, the rest are kept |
| Driver.Device.ShowOverflow | ht16k33.c:176-182 | the dash pattern is drawn and sent as one frame |
| Driver.Device.DrawCell | ht16k33.c:193-197 | drawing one symbol fills the next free position of the run |
| Driver.Device.DrawDigitAt | ht16k33.c:214-218 | one pass of the drawing loop appends the next digit's glyph to the run |
| Driver.Device.DrawDigits | ht16k33.c:214-218 | reading the scratch array backwards draws the digits most significant first |
| Driver.Device.DrawInteger | ht16k33.c:199-219 | the integer part's digits (a single 0 for zero) are drawn in order |
| Driver.Device.LightDot | ht16k33.c:221-226 | OR-ing 0x80 into the position before the cursor sets the dot on the last integer digit and changes nothing else |
| Driver.Device.DrawFraction | ht16k33.c:221-246 | the dot is lit on the last integer digit and the dp fraction digits follow |
| Driver.Device.DrawRun | ht16k33.c:193-246 | sign, integer digits and decimals are drawn in order from the start position |
| Driver.Device.DrawSymbol | ht16k33.c:248-251 | a symbol other than blank is drawn in the next position; blank draws nothing |
| Driver.Device.DrawNumber | ht16k33.c:187-251 | over cleared positions the buffer becomes the layout of the split value |
| Driver.Device.ShowNumber | ht16k33.c:184-253 | the cleared buffer is sent, the layout drawn, and the layout sent |
| Driver.Device.DisplayNumber | ht16k33.c:127-254 | buffer, frames sent and status are those of the general routine: dashes in one frame when too wide, else a cleared frame then the layout frame, returning the last write's status |
| Driver.Device.DisplayInteger | ht16k33.c:114-117 | the general routine with no decimals and no symbol |
| Driver.Device.DisplayFloat | ht16k33.c:120-124 | the general routine with the requested decimals and no symbol |
| Driver.Device.TemperatureSize | ht16k33.c:259-280 | the temperature code yields min(places, 2) and its own width of the value |
| Driver.Device.DisplayTemperature | ht16k33.c:257-300 | as written: dashes when the temperature width rule fails; else the general routine with no symbol, and only if its flush succeeded the degree pattern replaces the last position unsent |
| Driver.Device.ShowTemperature | ht16k33.c:291-299 | for a value that fits: the general routine with no symbol and its two frames, then, only if its flush succeeded, the degree pattern in the last position, unsent |
| Driver.Device.DisplayTemperatureIntended | ht16k33.c:257-300 | corrected: the same width rule, then the general routine with the degree mark as symbol, so it is laid out after the number and sent |
| Driver.Device.SetDigit | ht16k33.c:303-317 | error and no change past the configured digits; otherwise only that position changes, to the symbol's pattern (blank past 19) with bit 7 iff dot; nothing is sent |
| Driver.Device.SetSegments | ht16k33.c:320-327 | error and no change past the configured digits; otherwise only that position changes, to the given byte; nothing is sent |

## Left out

- The bus layer (`I2C_HandleTypeDef`, `HAL_I2C_Master_Transmit`) is modelled as a scripted status sequence. The handle pointer, the per-write address argument and the 100 and 10 time-unit timeouts are not part of this model.
- `mode` (the display-mode field) is set by `HT16K33_Init` and never read, so it is not modelled. The same goes for `HT16K33_BLINK` (0x85), which nothing uses.
- Floating point: the C `float` and `double` values and their conversions are modelled as exact reals. Truncating casts are `Floor` on non-negative values and `Trunc` otherwise. Rounding error in `fractional_part *= 10` is therefore not captured.
- DisplayNumber: requires digits ≥ 1 (≥ 2 with a symbol). With fewer, the C clamp subtracts from `hdev->digits - 1` into a `uint8_t`, which wraps to 254 or 255 decimals and writes out of bounds.
- DisplayNumber: requires |value| < 2^31, since the `int32_t` cast of a larger magnitude is undefined in C.
- DisplayInteger: requires n > INT32_MIN, because negating INT32_MIN as a double gives 2^31, whose `int32_t` cast is undefined.
- DisplayFloat: requires the same bounds as DisplayNumber.
- DisplayTemperature: requires -2^31 - 1 < t < 2^31, the values whose `int32_t` cast at ht16k33.c:264 is defined. Such a value at or below -2^31 is too wide and shows dashes; one that fits is inside DisplayNumber's bounds (Driver.FittingTemperatureInRange). DisplayTemperatureIntended requires the same.
- The `uint8_t` scratch arrays `int_digits`/`frac_digits` are sequences. At most ten integer digits and seven decimals are ever stored, which fits the arrays.
- Device.Valid requires digits ≤ 8. The handle's digit count is only ever set by `HT16K33_Init`, which caps it at 8, and a larger count would index past the 8-byte buffer.

## Findings

| source | as written | input that shows it | evidently intended | confidence | as-written member | corrected member |
|---|---|---|---|---|---|---|
| ht16k33.c:291-299 | the number is right-aligned with no symbol and flushed; then the degree glyph overwrites the last position, a digit of the number, and is never sent | 25.0, 0 places, 4 digits: the last frame shows blanks, 2, 5, and the buffer becomes blanks, 2, degree | the width reserves a cell for the degree, so the number should end one position early and the degree be shown and flushed with it | not executed | Driver.TemperatureDegreeNeverSent | Driver.IntendedTemperatureShowsDegree |
| ht16k33.c:148-155 | with decimals the fraction is rounded on its own and its carry into the integer part is dropped | 0.999 at 2 places shows 0.00 | round the whole value to dp places (round-half-up, as the comment at line 155 says); with 0 places the value stays truncated, as designed | not executed | Render.SplitDropsCarry | Render.RoundedSplit |
| ht16k33.c:89-95 | bit 0 is OR-ed as a blink switch but is already set in 0x81, and the rate goes to (mode-1) in bits 2..1, so mode 1 sends 0x81 like mode 0 | SetBlink(1) sends 0x21 then 0x81 | each blink mode selects its own rate in bits 2..1 of the display-setup command | not executed | Protocol.BlinkModeOneIsSteady | Protocol.IntendedBlinkDistinguishesModes |

The `Device` methods follow the code as written (`DisplayNumber`, `SetBlink`,
`DisplayTemperature`). The corrected definitions sit beside them:
`Render.RoundedSplit`, `Protocol.IntendedBlinkCommand` and
`Driver.Device.DisplayTemperatureIntended`, driven by `Driver.IntendedTemperatureOutcome`.
