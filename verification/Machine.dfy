/** Fixed-width integers of the 32-bit target, as ranges of `int`. */
module Machine {

  type byte = b: int | 0 <= b < 0x100
  type uint16 = w: int | 0 <= w < 0x1_0000
  type uint32 = w: int | 0 <= w < 0x1_0000_0000

  type Bytes = seq<byte>

  /** The number of 32-bit values: unsigned 32-bit arithmetic is taken modulo this. */
  const U32 := 0x1_0000_0000

  datatype Option<+T> = None | Some(value: T)

  /** A little-endian 16-bit load, as the target performs it through a `uint16_t*`. */
  function Load16(data: seq<byte>, off: nat): (w: uint16)
    requires off + 1 < |data|
  {
    var lo: int, hi: int := data[off], data[off + 1];
    lo + 0x100 * hi
  }

  /** A little-endian 32-bit load. */
  function Load32(data: seq<byte>, off: nat): (w: uint32)
    requires off + 3 < |data|
  {
    Load16(data, off) + 0x1_0000 * Load16(data, off + 2) as int
  }

  /** A little-endian 16-bit store. */
  function Store16(data: seq<byte>, off: nat, w: uint16): (r: seq<byte>)
    requires off + 1 < |data|
    ensures |r| == |data|
    ensures Load16(r, off) == w
    ensures forall k :: 0 <= k < |data| && k != off && k != off + 1 ==> r[k] == data[k]
  {
    data[off := w % 0x100][off + 1 := w / 0x100]
  }
}
