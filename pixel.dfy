/** The 32-bit ARGB pixel word the flush callback writes into the framebuffer
    texture (SDL_PIXELFORMAT_ARGB8888): blue in bits 0-7, green in 8-15,
    red in 16-23 and alpha in 24-31. */
module Pixel {

  /** A pixel as the GUI library hands it over: four 8-bit channels. */
  datatype Color32 = Color32(blue: bv8, green: bv8, red: bv8, alpha: bv8)

  /** Reads one pixel from four consecutive bytes of the render buffer.
      The byte order is decided inside the GUI library, so the model takes
      the reader as a parameter instead of fixing a layout. */
  type ColorReader = (bv8, bv8, bv8, bv8) -> Color32

  /** Splits an ARGB word into its four channels: blue from bits 0-7, green
      from 8-15, red from 16-23 and alpha from 24-31. */
  function Unpack(w: bv32): (c: Color32)
  {
    Color32(
      blue := (w & 0xFF) as bv8,
      green := ((w >> 8) & 0xFF) as bv8,
      red := ((w >> 16) & 0xFF) as bv8,
      alpha := ((w >> 24) & 0xFF) as bv8)
  }

  /** Packs the four channels into one ARGB word. Each channel lands in its
      own byte, so the byte fields of the word give the channels back. */
  function Pack(c: Color32): (w: bv32)
    ensures Unpack(w) == c
  {
    ((c.blue as bv32) << 0) | ((c.green as bv32) << 8) | ((c.red as bv32) << 16) | ((c.alpha as bv32) << 24)
  }

  /** Every 32-bit word is the packing of its own channels, so packing is a
      bijection between Color32 and bv32. */
  lemma PackUnpack(w: bv32)
    ensures Pack(Unpack(w)) == w
  {
  }

  /** Two colours that pack to the same word are the same colour. */
  lemma PackInjective(c: Color32, d: Color32)
    requires Pack(c) == Pack(d)
    ensures c == d
  {
  }

  /** The largest value of the C `int` that a uint8_t channel is promoted to
      before it is shifted. */
  const IntMax: int := 0x7FFF_FFFF

  /** The mathematical value of `color.alpha << 24` as written: the channel is
      promoted to a signed 32-bit int, and ISO C defines the shift only when
      this value does not exceed IntMax. */
  function AlphaShiftAsWritten(alpha: bv8): int
  {
    alpha as int * 0x100_0000
  }

  /** The shift as written is defined exactly for alpha below 0x80, so every
      opaque pixel (alpha 0xFF) overflows the signed int. */
  lemma AlphaShiftInRange(alpha: bv8)
    ensures AlphaShiftAsWritten(alpha) <= IntMax <==> alpha < 0x80
    ensures AlphaShiftAsWritten(0xFF) > IntMax
  {
  }
}
