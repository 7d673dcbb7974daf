/** The fixed-width integers of the C sources, as mathematical integers. */
module CTypes {
  type Byte = x: int | 0 <= x < 0x100

  function Zeros(n: nat): (z: seq<Byte>)
    ensures |z| == n && forall i :: 0 <= i < n ==> z[i] == 0
  {
    seq(n, _ => 0)
  }

  function Be16(hi: Byte, lo: Byte): (w: nat)
    ensures w <= 0xffff
  {
    var h: int := hi;
    h * 0x100 + lo
  }

  /** Four bytes read through memcpy and ntohl. */
  function Be32(w: seq<Byte>): (v: nat)
    requires |w| == 4
    ensures v <= 0xffff_ffff
  {
    Be16(w[0], w[1]) * 0x1_0000 + Be16(w[2], w[3])
  }

  /** The int with the bits of v modulo 2^32. */
  function ToInt32(v: int): (n: int) {
    var w := v % 0x1_0000_0000;
    if w >= 0x8000_0000 then w - 0x1_0000_0000 else w
  }
}
