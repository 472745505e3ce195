/**
 A BYTE as its eight bits, bit 0 first, with the C operators on it.
 */
module Bytes {

  type Byte = b: seq<bool> | |b| == 8 witness [false, false, false, false, false, false, false, false]

  const ZERO: Byte := [false, false, false, false, false, false, false, false]
  const ONES: Byte := [true, true, true, true, true, true, true, true]

  function Spread(on: bool): Byte {
    if on then ONES else ZERO
  }

  function Not(x: Byte): Byte {
    seq(8, i requires 0 <= i < 8 => !x[i])
  }

  function And(x: Byte, y: Byte): Byte {
    seq(8, i requires 0 <= i < 8 => x[i] && y[i])
  }

  function Or(x: Byte, y: Byte): Byte {
    seq(8, i requires 0 <= i < 8 => x[i] || y[i])
  }

  function Xor(x: Byte, y: Byte): Byte {
    seq(8, i requires 0 <= i < 8 => x[i] != y[i])
  }

  function ShiftRight(x: Byte, n: nat): Byte {
    seq(8, i requires 0 <= i < 8 => i + n < 8 && x[i + n])
  }

  function ShiftLeft(x: Byte, n: nat): Byte {
    seq(8, i requires 0 <= i < 8 => i >= n && x[i - n])
  }

  function Zeros(n: nat): seq<Byte> {
    seq(n, _ => ZERO)
  }

  /** The bytes of an image between two offsets. */
  function Part(image: seq<Byte>, a: nat, b: nat): (p: seq<Byte>)
    requires a <= b <= |image|
    ensures |p| == b - a
  {
    image[a..b]
  }

  lemma Join(image: seq<Byte>, a: nat, b: nat, c: nat)
    requires a <= b <= c <= |image|
    ensures Part(image, a, b) + Part(image, b, c) == Part(image, a, c)
  {
  }
}
