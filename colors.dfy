/** The 4-byte pixel of the store (Unreal's FColor) and the bit-level
    transform the window exporter applies to it. */
module Colors {

  /** One byte per channel. In memory the channels lie B, G, R, A, so the
      packed 32-bit word reads A:R:G:B from the high byte down. */
  datatype Color = Color(R: bv8, G: bv8, B: bv8, A: bv8)

  /** `FColor(EForceInit::ForceInit)`: every channel zero, alpha included. */
  const Zero: Color := Color(0, 0, 0, 0)

  /** `FColor(R, G, B)`: the alpha parameter defaults to 255. */
  function Opaque(r: bv8, g: bv8, b: bv8): Color {
    Color(r, g, b, 0xFF)
  }

  /** The packed word `FColor::Bits`: alpha in the high byte, then red, green,
      and blue in the low byte. */
  function Bits(c: Color): (w: bv32)
    ensures (w >> 24) & 0xFF == c.A as bv32 && (w >> 16) & 0xFF == c.R as bv32
    ensures (w >> 8) & 0xFF == c.G as bv32 && w & 0xFF == c.B as bv32
  {
    (c.A as bv32 << 24) | (c.R as bv32 << 16) | (c.G as bv32 << 8) | (c.B as bv32)
  }

  /** Reads a packed word back as a color. */
  function FromBits(w: bv32): Color {
    Color(((w >> 16) & 0xFF) as bv8, ((w >> 8) & 0xFF) as bv8, (w & 0xFF) as bv8, ((w >> 24) & 0xFF) as bv8)
  }

  lemma BitsRoundTrip(c: Color)
    ensures FromBits(Bits(c)) == c
  {
  }

  lemma FromBitsRoundTrip(w: bv32)
    ensures Bits(FromBits(w)) == w
  {
  }

  /** Packing is injective: two colors with the same word are the same color. */
  lemma BitsInjective(c: Color, d: Color)
    requires Bits(c) == Bits(d)
    ensures c == d
  {
    BitsRoundTrip(c);
    BitsRoundTrip(d);
  }

  /** The word the exporter XORs every pixel with, `FColor(0, 0, 0).Bits`, has
      only the alpha byte set. */
  lemma BlackMask()
    ensures Bits(Opaque(0, 0, 0)) == 0xFF00_0000
  {
  }

  /** The exporter's per-pixel transform: XOR of the packed words with
      `FColor(0, 0, 0)`. That color is opaque black, so red, green and blue
      pass through and the alpha byte is complemented. */
  function ExportTransform(c: Color): (r: Color)
    ensures r.R == c.R && r.G == c.G && r.B == c.B
    ensures r.A == 0xFF - c.A
    ensures c.A == 0xFF <==> r.A == 0
  {
    FromBits(Bits(c) ^ Bits(Opaque(0, 0, 0)))
  }

  /** Applying the export transform twice gives back the original pixel. */
  lemma ExportTransformInvolution(c: Color)
    ensures ExportTransform(ExportTransform(c)) == c
  {
  }

  /** The transform is not the identity: it changes every pixel, since no
      byte equals its own complement. */
  lemma ExportTransformChangesEveryPixel(c: Color)
    ensures ExportTransform(c) != c
  {
  }
}
