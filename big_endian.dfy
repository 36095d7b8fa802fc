/**
  Fixed-width unsigned integers and the big-endian 16-bit put and get that
  the packet code takes from Go's encoding/binary, stated here inline.
 */
module BigEndian {

  type uint8 = x: int | 0 <= x < 0x100
  type uint16 = x: int | 0 <= x < 0x1_0000
  type uint32 = x: int | 0 <= x < 0x1_0000_0000

  /** The 16-bit value stored big-endian at b[off], b[off + 1] (binary.BigEndian.Uint16). */
  function GetUint16(b: seq<uint8>, off: nat): (v: uint16)
    requires off + 2 <= |b|
  {
    b[off] as int * 0x100 + b[off + 1] as int
  }

  /** The two bytes that binary.BigEndian.PutUint16 writes for v: high byte first. */
  function Uint16Bytes(v: uint16): (b: seq<uint8>)
    ensures |b| == 2 && GetUint16(b, 0) == v
  {
    [v / 0x100, v % 0x100]
  }

  /** Reading two bytes as a word and writing the word back gives the same two bytes. */
  lemma {:induction false} Uint16BytesOfGet(b: seq<uint8>, off: nat)
    requires off + 2 <= |b|
    ensures Uint16Bytes(GetUint16(b, off)) == b[off..off + 2]
  {
    var v := GetUint16(b, off);
    assert v / 0x100 == b[off] && v % 0x100 == b[off + 1];
  }

  /** binary.BigEndian.PutUint16(b[off:], v): writes v's two bytes at off and off + 1. */
  method PutUint16(b: array<uint8>, off: nat, v: uint16)
    requires off + 2 <= b.Length
    modifies b
    ensures b[..] == old(b[..off]) + Uint16Bytes(v) + old(b[off + 2..])
  {
    b[off] := v / 0x100;
    b[off + 1] := v % 0x100;
    assert b[..] == b[..off] + b[off..off + 2] + b[off + 2..];
  }
}
