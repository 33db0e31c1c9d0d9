/** Command bytes and the display-RAM write frame of the HT16K33. */
module Protocol {
  import opened Bytes

  /** 7-bit bus address of the chip, and as the bus layer wants it (shifted left). */
  const ChipAddress: byte := 0x70
  const BusAddress: byte := 0xE0

  lemma BusAddressIsShiftedChipAddress()
    ensures BusAddress == ChipAddress << 1
  {
  }

  const OscillatorOn: byte := 0x21
  const DisplayOn: byte := 0x81
  const BrightnessBase: byte := 0xE0

  /** The dimming command for a requested level; levels above 15 are clamped. */
  function BrightnessCommand(level: u8): (c: byte)
    ensures c & 0xF0 == BrightnessBase
    ensures (c & 0x0F) as int == Min(level, 15)
  {
    BrightnessBase | (Min(level, 15) as byte)
  }

  /**
   * The display-setup command the driver sends for a blink mode: modes above 2 count as 0,
   * bit 0 is set for modes 1 and 2, and (mode - 1) is shifted into bits 2..1.
   */
  function BlinkCommand(mode: u8): (c: byte)
    ensures c == (if mode == 2 then 0x83 else 0x81)
  {
    var m := if mode > 2 then 0 else mode;
    var c := DisplayOn | (if m > 0 then 0x01 else 0x00);
    if m > 0 then c | (((m - 1) as byte) << 1) else c
  }

  /** Mode 1 yields the same byte as mode 0: bit 0 is already part of 0x81. */
  lemma BlinkModeOneIsSteady()
    ensures BlinkCommand(1) == BlinkCommand(0) == DisplayOn
  {
  }

  /**
   * The setup byte with the blink rate in bits 2..1 and the display-on bit 0, which is
   * what the two documented blink modes need for each to select a rate of its own.
   */
  function IntendedBlinkCommand(mode: u8): (c: byte)
    ensures c & 0xF9 == DisplayOn
    ensures mode <= 2 ==> ((c >> 1) & 0x03) as int == mode
    ensures mode > 2 ==> c == DisplayOn
  {
    var m := if mode > 2 then 0 else mode;
    DisplayOn | ((m as byte) << 1)
  }

  /** The intended encoding tells the three modes apart; mode 0 agrees with the driver. */
  lemma IntendedBlinkDistinguishesModes(a: u8, b: u8)
    requires a <= 2 && b <= 2 && a != b
    ensures IntendedBlinkCommand(a) != IntendedBlinkCommand(b)
    ensures IntendedBlinkCommand(0) == BlinkCommand(0)
  {
    assert ((IntendedBlinkCommand(a) >> 1) & 0x03) as int == a;
    assert ((IntendedBlinkCommand(b) >> 1) & 0x03) as int == b;
  }

  /**
   * The 17-byte display-RAM write: start address 0, then for each of the 8 digit slots
   * its pattern followed by an unused zero byte.
   */
  function Frame(buf: seq<byte>): (f: seq<byte>)
    requires |buf| == 8
    ensures |f| == 17 && f[0] == 0x00
  {
    seq(17, t requires 0 <= t < 17 => if t % 2 == 1 then buf[t / 2] else 0x00)
  }

  /** Display byte `i` sits at offset 2i+1 of the frame, and the odd RAM bytes are zero. */
  lemma FrameSlots(buf: seq<byte>)
    requires |buf| == 8
    ensures forall i :: 0 <= i < 8 ==> Frame(buf)[2 * i + 1] == buf[i] && Frame(buf)[2 * i + 2] == 0x00
  {
  }

  /** Any 17 bytes laid out as a frame of `buf` are that frame. */
  lemma FrameFromSlots(f: seq<byte>, buf: seq<byte>)
    requires |buf| == 8 && |f| == 17 && f[0] == 0x00
    requires forall i :: 0 <= i < 8 ==> f[2 * i + 1] == buf[i] && f[2 * i + 2] == 0x00
    ensures f == Frame(buf)
  {
    var g := Frame(buf);
    forall t | 0 <= t < 17 ensures f[t] == g[t] {
      if t > 0 {
        var j := (t - 1) / 2;
        if t == 2 * j + 1 {
          assert f[2 * j + 1] == g[2 * j + 1];
        } else {
          assert t == 2 * j + 2;
          assert f[2 * j + 2] == g[2 * j + 2];
        }
      }
    }
  }

  /** The digit patterns carried by a frame. */
  function Unframe(f: seq<byte>): (buf: seq<byte>)
    requires |f| == 17
    ensures |buf| == 8
    ensures forall i :: 0 <= i < 8 ==> buf[i] == f[2 * i + 1]
  {
    seq(8, i requires 0 <= i < 8 => f[2 * i + 1])
  }

  /** A frame carries exactly the buffer it was built from, so two buffers share no frame. */
  lemma FrameRoundTrip(buf: seq<byte>, other: seq<byte>)
    requires |buf| == 8 && |other| == 8
    ensures Unframe(Frame(buf)) == buf
    ensures Frame(buf) == Frame(other) ==> buf == other
  {
    assert Unframe(Frame(buf)) == buf;
    if Frame(buf) == Frame(other) {
      assert Unframe(Frame(other)) == other;
    }
  }
}
