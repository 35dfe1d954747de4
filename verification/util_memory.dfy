/** The byte fills of src/Util/UtilSetMemory.c.

    The memory at pAddr is a byte sequence at least `size` long; each fill
    returns the sequence after the call. MLibUtilSetMemory16 stores 16-bit
    units, so what lands in memory depends on the host's byte order, which
    is a parameter here. */
module UtilMemory {
  import opened MLibTypes

  /** MLibUtilSetMemory8(pAddr, value, size): bytes [0, size) become value. */
  method SetMemory8(mem: seq<byte>, value: byte, size: size_t) returns (r: seq<byte>)
    requires size <= |mem|
    ensures |r| == |mem|
    ensures forall k :: 0 <= k < size ==> r[k] == value
    ensures forall k :: size <= k < |mem| ==> r[k] == mem[k]
  {
    r := mem;
    var offset := 0;
    while offset < size
      invariant offset <= size && |r| == |mem|
      invariant forall k :: 0 <= k < offset ==> r[k] == value
      invariant forall k :: offset <= k < |mem| ==> r[k] == mem[k]
    {
      r := r[offset := value];
      offset := offset + 1;
    }
  }

  /** The two bytes of a uint16_t as they lie in memory. */
  function Rep16(value: bv16, littleEndian: bool): (b: seq<byte>)
    ensures |b| == 2
  {
    var lo, hi := (value & 0xFF) as byte, (value >> 8) as byte;
    if littleEndian then [lo, hi] else [hi, lo]
  }

  /** The uint16_t two bytes in memory stand for. */
  function Load16(b: seq<byte>, littleEndian: bool): bv16
    requires |b| == 2
  {
    var lo := if littleEndian then b[0] else b[1];
    var hi := if littleEndian then b[1] else b[0];
    (hi as bv16 << 8) | lo as bv16
  }

  /** Reading back a stored uint16_t gives the value, in either byte order. */
  lemma Load16Rep16(value: bv16, littleEndian: bool)
    ensures Load16(Rep16(value, littleEndian), littleEndian) == value
  {
  }

  /** MLibUtilSetMemory16(pAddr, value, size): size / 2 uint16_t stores, then
      the odd last byte from value's own first byte; byte k ends up as byte
      k % 2 of value's representation. */
  method SetMemory16(mem: seq<byte>, value: bv16, size: size_t, littleEndian: bool) returns (r: seq<byte>)
    requires size <= |mem|
    ensures |r| == |mem|
    ensures forall k :: 0 <= k < size ==> r[k] == Rep16(value, littleEndian)[k % 2]
    ensures forall k :: size <= k < |mem| ==> r[k] == mem[k]
  {
    var rep := Rep16(value, littleEndian);
    var offsetMax := size / 2;
    r := mem;
    var offset := 0;
    while offset < offsetMax
      invariant offset <= offsetMax && |r| == |mem|
      invariant forall k :: 0 <= k < 2 * offset ==> r[k] == rep[k % 2]
      invariant forall k :: 2 * offset <= k < |mem| ==> r[k] == mem[k]
    {
      r := r[2 * offset := rep[0]][2 * offset + 1 := rep[1]];
      offset := offset + 1;
    }
    offset := offset * 2;
    while offset < size
      invariant offset <= size && |r| == |mem|
      invariant forall k :: 0 <= k < offset ==> r[k] == rep[k % 2]
      invariant forall k :: offset <= k < |mem| ==> r[k] == mem[k]
    {
      r := r[offset := rep[offset % 2]];
      offset := offset + 1;
    }
  }

  /** Every pair of bytes a SetMemory16 wrote reads back as value. */
  lemma SetMemory16Units(r: seq<byte>, value: bv16, size: nat, littleEndian: bool, i: nat)
    requires size <= |r| && 2 * i + 2 <= size
    requires forall k :: 0 <= k < size ==> r[k] == Rep16(value, littleEndian)[k % 2]
    ensures Load16(r[2 * i..2 * i + 2], littleEndian) == value
  {
    assert r[2 * i..2 * i + 2] == Rep16(value, littleEndian) by {
      assert r[2 * i] == Rep16(value, littleEndian)[(2 * i) % 2];
      assert r[2 * i + 1] == Rep16(value, littleEndian)[(2 * i + 1) % 2];
    }
    Load16Rep16(value, littleEndian);
  }

  /** MLibUtilSetMemoryCmpt(pAddr, value, size), the memset-compatible form:
      SetMemory8 with value converted to uint8_t, which keeps its low 8 bits;
      it returns pAddr. The int value is given by its 32-bit two's-complement
      bit pattern. */
  method SetMemoryCmpt(pAddr: nat, mem: seq<byte>, value: bv32, size: size_t) returns (r: seq<byte>, ret: nat)
    requires size <= |mem|
    ensures ret == pAddr && |r| == |mem|
    ensures forall k :: 0 <= k < size ==> r[k] as bv32 == value & 0xFF
    ensures forall k :: size <= k < |mem| ==> r[k] == mem[k]
  {
    r := SetMemory8(mem, (value & 0xFF) as byte, size);
    ret := pAddr;
  }
}
