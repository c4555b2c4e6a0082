/**
 * The class template `BE_uint<N>` of readpcr.cpp, instantiated at `uint16_t`
 * and `uint32_t`. It is a plain value type holding one field, `m_value`, which
 * keeps the byte-swapped form of the native value it stands for: on a
 * little-endian host its bytes in memory are then the big-endian wire bytes.
 * Each instantiation is a datatype; assignment (`operator=`) yields the
 * updated value, which the caller rebinds.
 */
module BigEndianValue {
  import opened ByteSwap

  /** `BE_uint<uint16_t>`. */
  datatype BeUint16 = BeUint16(m_value: bv16)
  {
    /** `operator uint16_t()`: the native value, recovered by swapping back. */
    function Native(): (v: bv16)
      ensures SwapEndian16(v) == m_value
    {
      SwapEndian16Involutive(m_value);
      SwapEndian16(m_value)
    }

    /** `be_value()`: the stored (wire-order) representation. */
    function BeValue(): (w: bv16)
      ensures w == SwapEndian16(Native())
    {
      m_value
    }

    /** `le_value()`: the native value again. */
    function LeValue(): (v: bv16)
      ensures v == Native()
      ensures SwapEndian16(v) == BeValue()
    {
      SwapEndian16(m_value)
    }

    /** `operator=(uint16_t)`: whatever was stored before, the result stands for `value`. */
    function Assign(value: bv16): (r: BeUint16)
      ensures r.Native() == value && r.LeValue() == value
      ensures r.BeValue() == SwapEndian16(value)
      ensures r == FromNative16(value)
    {
      BeUint16(SwapEndian16(value))
    }
  }

  /** The default constructor `BE_uint()`: stores 0. */
  function Default16(): (r: BeUint16)
    ensures r.Native() == 0 && r.LeValue() == 0 && r.BeValue() == 0
  {
    BeUint16(0)
  }

  /** The converting constructor `BE_uint(N value)`: stores `SwapEndian(value)`. */
  function FromNative16(value: bv16): (r: BeUint16)
    ensures r.Native() == value && r.LeValue() == value
    ensures r.BeValue() == SwapEndian16(value)
  {
    SwapEndian16Involutive(value);
    BeUint16(SwapEndian16(value))
  }

  /** `BE_uint<uint32_t>`. */
  datatype BeUint32 = BeUint32(m_value: bv32)
  {
    /** `operator uint32_t()`: the native value, recovered by swapping back. */
    function Native(): (v: bv32)
      ensures SwapEndian32(v) == m_value
    {
      SwapEndian32Involutive(m_value);
      SwapEndian32(m_value)
    }

    /** `be_value()`: the stored (wire-order) representation. */
    function BeValue(): (w: bv32)
      ensures w == SwapEndian32(Native())
    {
      m_value
    }

    /** `le_value()`: the native value again. */
    function LeValue(): (v: bv32)
      ensures v == Native()
      ensures SwapEndian32(v) == BeValue()
    {
      SwapEndian32(m_value)
    }

    /** `operator=(uint32_t)`: whatever was stored before, the result stands for `value`. */
    function Assign(value: bv32): (r: BeUint32)
      ensures r.Native() == value && r.LeValue() == value
      ensures r.BeValue() == SwapEndian32(value)
      ensures r == FromNative32(value)
    {
      BeUint32(SwapEndian32(value))
    }
  }

  /** The default constructor `BE_uint()`: stores 0. */
  function Default32(): (r: BeUint32)
    ensures r.Native() == 0 && r.LeValue() == 0 && r.BeValue() == 0
  {
    BeUint32(0)
  }

  /** The converting constructor `BE_uint(N value)`: stores `SwapEndian(value)`. */
  function FromNative32(value: bv32): (r: BeUint32)
    ensures r.Native() == value && r.LeValue() == value
    ensures r.BeValue() == SwapEndian32(value)
  {
    SwapEndian32Involutive(value);
    BeUint32(SwapEndian32(value))
  }

  /**
   * The class invariant: every stored representation is the swapped form of
   * exactly one native value, and rebuilding from that native value gives it back.
   */
  lemma StoredIsSwappedNative16(w: BeUint16)
    ensures w == FromNative16(w.Native())
    ensures forall v: bv16 :: FromNative16(v) == w ==> v == w.Native()
  {
    forall v: bv16 | FromNative16(v) == w
      ensures v == w.Native()
    {
      SwapEndian16Involutive(v);
    }
  }

  /** The same invariant for the 32-bit instantiation. */
  lemma StoredIsSwappedNative32(w: BeUint32)
    ensures w == FromNative32(w.Native())
    ensures forall v: bv32 :: FromNative32(v) == w ==> v == w.Native()
  {
    forall v: bv32 | FromNative32(v) == w
      ensures v == w.Native()
    {
      SwapEndian32Involutive(v);
    }
  }
}
