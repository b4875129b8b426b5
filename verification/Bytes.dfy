// Bytes, as the unsigned char of the C++ code, and texts of single-byte characters.
module Bytes {
  type byte = b: int | 0 <= b < 256
  type Text = seq<byte>

  const SPACE: byte := ' ' as int
  const PERIOD: byte := '.' as int
  const ZERO: byte := '0' as int
  const NINE: byte := '9' as int

  // White space: a space, or one of the control characters from tabulator to carriage return.
  predicate IsBlank(c: byte) { c == SPACE || 9 <= c <= 13 }

  // The conversion (unsigned char)n.
  function ToByte(n: int): byte { n % 256 }

  // The conversion (signed char)n.
  function ToSignedChar(n: int): (c: int)
    ensures -128 <= c < 128 && (c - n) % 256 == 0
  {
    var b := n % 256;
    if b < 128 then b else b - 256
  }

  function Zeros(n: nat): seq<byte> { seq(n, i => 0) }
}
