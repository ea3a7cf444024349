/** Pixels with four 8-bit channels and the substitution of one message
    character into the red channel. */
module Pixels {

  /** An unsigned 8-bit channel sample. */
  type Byte = b: nat | b < 0x100

  /** A 16-bit UTF-16 code unit, the element type of a string. */
  type Char16 = c: nat | c < 0x1_0000

  /** A colour as an (A, R, G, B) quadruple of bytes. */
  datatype Pixel = Pixel(a: Byte, r: Byte, g: Byte, b: Byte)

  /** The unchecked narrowing conversion of a character to a byte: it keeps
      the low 8 bits of the code unit and drops the high 8 bits. */
  function LowByte(c: Char16): (r: Byte)
    ensures exists high: Byte :: c == high * 0x100 + r
    ensures c < 0x100 ==> r == c
  {
    var high: Byte := c / 0x100;
    assert c == high * 0x100 + c % 0x100;
    c % 0x100
  }

  /** Builds a colour from the pixel's alpha, green and blue and the symbol's
      byte as red. */
  function AddCharToPixel(pixel: Pixel, symbol: Char16): (r: Pixel)
    ensures r.a == pixel.a && r.g == pixel.g && r.b == pixel.b
    ensures r.r == LowByte(symbol)
  {
    Pixel(pixel.a, LowByte(symbol), pixel.g, pixel.b)
  }

  /** Writing the same symbol twice is the same as writing it once. */
  lemma AddCharToPixelIdempotent(pixel: Pixel, symbol: Char16)
    ensures AddCharToPixel(AddCharToPixel(pixel, symbol), symbol) == AddCharToPixel(pixel, symbol)
  {
  }

  /** A pixel is left alone by a substitution exactly when its red channel
      already holds the symbol's byte. */
  lemma AddCharToPixelFixpoint(pixel: Pixel, symbol: Char16)
    ensures AddCharToPixel(pixel, symbol) == pixel <==> pixel.r == LowByte(symbol)
  {
  }
}
