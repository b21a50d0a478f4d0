/** `video::color`: an RGBA value with four 8-bit channels. */
module Colors {
  import opened Numeric

  /** Alpha of a fully opaque colour, the default channel value. */
  const Opaque: uint8 := 255

  /** The channels in the order the struct declares them. */
  datatype Color = Color(a: uint8, r: uint8, g: uint8, b: uint8)

  /** The only constructor: red, green and blue are given; alpha may be left out. */
  function NewColor(r: uint8, g: uint8, b: uint8, a: uint8 := Opaque): (c: Color)
    ensures c.r == r && c.g == g && c.b == b
    ensures c.a == a
  {
    Color(a, r, g, b)
  }

  /** Leaving out alpha gives an opaque colour with the given channels. */
  lemma DefaultAlphaIsOpaque(r: uint8, g: uint8, b: uint8)
    ensures NewColor(r, g, b) == NewColor(r, g, b, 255)
    ensures NewColor(r, g, b).a == 255
  {
  }
}
