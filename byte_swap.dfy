/**
 * The two width-specific byte swaps of readpcr.cpp (`SwapEndian(uint16_t)` and
 * `SwapEndian(uint32_t)`), written with the same shifts and masks as the source,
 * and the byte-level views used to state what they do.
 */
module ByteSwap {

  /** Byte `k` of a 16-bit value, counting from the least significant byte. */
  function Byte16(v: bv16, k: nat): bv8
    requires k < 2
  {
    if k == 0 then (v & 0xFF) as bv8 else (v >> 8) as bv8
  }

  /** Byte `k` of a 32-bit value, counting from the least significant byte. */
  function Byte32(v: bv32, k: nat): bv8
    requires k < 4
  {
    match k
    case 0 => (v & 0xFF) as bv8
    case 1 => ((v >> 8) & 0xFF) as bv8
    case 2 => ((v >> 16) & 0xFF) as bv8
    case _ => (v >> 24) as bv8
  }

  /** A 16-bit value is determined by its two bytes. */
  lemma Bytes16Determine(a: bv16, b: bv16)
    requires Byte16(a, 0) == Byte16(b, 0) && Byte16(a, 1) == Byte16(b, 1)
    ensures a == b
  {
  }

  /** A 32-bit value is determined by its four bytes. */
  lemma Bytes32Determine(a: bv32, b: bv32)
    requires forall k :: 0 <= k < 4 ==> Byte32(a, k) == Byte32(b, k)
    ensures a == b
  {
    assert Byte32(a, 0) == Byte32(b, 0) && Byte32(a, 1) == Byte32(b, 1);
    assert Byte32(a, 2) == Byte32(b, 2) && Byte32(a, 3) == Byte32(b, 3);
  }

  /**
   * `SwapEndian(uint16_t)`: the operand is promoted to a 32-bit `int`, so
   * `val << 8` keeps the high byte in bits 16..23; the return truncates the
   * result back to 16 bits, which drops it. The promotion and the truncation
   * are written out here. The result exchanges the two bytes.
   */
  function SwapEndian16(val: bv16): (r: bv16)
    ensures Byte16(r, 0) == Byte16(val, 1)
    ensures Byte16(r, 1) == Byte16(val, 0)
  {
    var promoted := val as bv32;
    (((promoted << 8) | (promoted >> 8)) & 0xFFFF) as bv16
  }

  /**
   * `SwapEndian(uint32_t)`: unsigned 32-bit arithmetic throughout. The result
   * reverses the four bytes: byte k of the result is byte 3 - k of the input.
   */
  function SwapEndian32(val: bv32): (r: bv32)
    ensures forall k :: 0 <= k < 4 ==> Byte32(r, k) == Byte32(val, 3 - k)
  {
    (val << 24) | ((val << 8) & 0x00ff0000) | ((val >> 8) & 0x0000ff00) | (val >> 24)
  }

  /** The 16-bit swap is its own inverse. */
  lemma SwapEndian16Involutive(v: bv16)
    ensures SwapEndian16(SwapEndian16(v)) == v
  {
    Bytes16Determine(SwapEndian16(SwapEndian16(v)), v);
  }

  /** The 32-bit swap is its own inverse. */
  lemma SwapEndian32Involutive(v: bv32)
    ensures SwapEndian32(SwapEndian32(v)) == v
  {
    Bytes32Determine(SwapEndian32(SwapEndian32(v)), v);
  }
}
