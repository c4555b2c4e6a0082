/**
 * The packed `ReadPcrCommand` and `ReadPcrReply` records of readpcr.cpp, the
 * TPM_PCRRead request and response of the TCG TPM Main Specification 1.2
 * (Part 3, section 16.2). Instead of relying on compiler packing, the layouts
 * are written as explicit byte sequences:
 *   - the wire format: every integer big-endian, fields in order, no padding;
 *   - the memory image: what the program actually hands to the transport,
 *     i.e. the `m_value` fields laid out in host order, the host being
 *     little-endian (x86 Windows).
 * The lemmas show that the two agree, which is the reason `BE_uint` exists.
 */
module PcrCodec {
  import opened Options
  import opened ByteSwap
  import opened BigEndianValue

  /** `TPM_TAG_RQU_COMMAND` (TPM 1.2 Part 2, section 6). */
  const TagRquCommand: bv16 := 0xC1
  /** `TPM_ORD_PCRRead`, the ordinal of TPM_PCRRead in the TPM 1.2 specification, Part 2. */
  const OrdinalPcrRead: bv32 := 21

  /** `sizeof(ReadPcrCommand)` under `#pragma pack(1)`: tag + size + ordinal + index. */
  const CommandSize: nat := 2 + 4 + 4 + 4
  /** Offset of `pcr_value` in `ReadPcrReply`: after tag, size and result code. */
  const DigestOffset: nat := 2 + 4 + 4
  /** `sizeof(ReadPcrReply::pcr_value)`: a SHA-1 digest. */
  const DigestSize: nat := 20
  /** `sizeof(ReadPcrReply)` under `#pragma pack(1)`. */
  const ReplySize: nat := DigestOffset + DigestSize

  // ---------------------------------------------------------------------------
  // Scalars: wire order (big-endian) and host memory order (little-endian)

  /** Big-endian encoding of a 16-bit value: most significant byte first. */
  function BE16(v: bv16): (b: seq<bv8>)
    ensures |b| == 2
  {
    [Byte16(v, 1), Byte16(v, 0)]
  }

  /** Big-endian encoding of a 32-bit value: most significant byte first. */
  function BE32(v: bv32): (b: seq<bv8>)
    ensures |b| == 4
  {
    [Byte32(v, 3), Byte32(v, 2), Byte32(v, 1), Byte32(v, 0)]
  }

  /** Reads a big-endian 16-bit value. */
  function FromBE16(b: seq<bv8>): bv16
    requires |b| == 2
  {
    ((b[0] as bv16) << 8) | (b[1] as bv16)
  }

  /** Reads a big-endian 32-bit value. */
  function FromBE32(b: seq<bv8>): bv32
    requires |b| == 4
  {
    ((b[0] as bv32) << 24) | ((b[1] as bv32) << 16) | ((b[2] as bv32) << 8) | (b[3] as bv32)
  }

  /** How a 16-bit variable lies in the memory of a little-endian host. */
  function LE16(v: bv16): (b: seq<bv8>)
    ensures |b| == 2
  {
    [Byte16(v, 0), Byte16(v, 1)]
  }

  /** How a 32-bit variable lies in the memory of a little-endian host. */
  function LE32(v: bv32): (b: seq<bv8>)
    ensures |b| == 4
  {
    [Byte32(v, 0), Byte32(v, 1), Byte32(v, 2), Byte32(v, 3)]
  }

  /** Reads a 16-bit variable from the memory of a little-endian host. */
  function FromLE16(b: seq<bv8>): bv16
    requires |b| == 2
  {
    ((b[1] as bv16) << 8) | (b[0] as bv16)
  }

  /** Reads a 32-bit variable from the memory of a little-endian host. */
  function FromLE32(b: seq<bv8>): bv32
    requires |b| == 4
  {
    ((b[3] as bv32) << 24) | ((b[2] as bv32) << 16) | ((b[1] as bv32) << 8) | (b[0] as bv32)
  }

  /** Big-endian 16-bit decoding inverts encoding, in both directions. */
  lemma BE16RoundTrip(v: bv16, b: seq<bv8>)
    ensures FromBE16(BE16(v)) == v
    ensures |b| == 2 ==> BE16(FromBE16(b)) == b
  {
    Bytes16Determine(FromBE16(BE16(v)), v);
  }

  /** Big-endian 32-bit decoding inverts encoding, in both directions. */
  lemma BE32RoundTrip(v: bv32, b: seq<bv8>)
    ensures FromBE32(BE32(v)) == v
    ensures |b| == 4 ==> BE32(FromBE32(b)) == b
  {
    Bytes32Determine(FromBE32(BE32(v)), v);
  }

  /**
   * The memory image of a `BE_uint<uint16_t>` on a little-endian host is the
   * big-endian encoding of its native value, and reading the field back from
   * memory recovers what was stored.
   */
  lemma MemoryImageIsWire16(w: BeUint16)
    ensures LE16(w.m_value) == BE16(w.Native())
    ensures FromLE16(LE16(w.m_value)) == w.m_value
  {
    Bytes16Determine(FromLE16(LE16(w.m_value)), w.m_value);
  }

  /** The same for `BE_uint<uint32_t>`. */
  lemma MemoryImageIsWire32(w: BeUint32)
    ensures LE32(w.m_value) == BE32(w.Native())
    ensures FromLE32(LE32(w.m_value)) == w.m_value
  {
    var v := w.Native();
    assert w.m_value == SwapEndian32(v);
    assert Byte32(w.m_value, 0) == Byte32(v, 3) && Byte32(w.m_value, 1) == Byte32(v, 2);
    assert Byte32(w.m_value, 2) == Byte32(v, 1) && Byte32(w.m_value, 3) == Byte32(v, 0);
    LE32RoundTrip(w.m_value);
  }

  /** Reading back a 32-bit variable from its little-endian image gives the variable. */
  lemma LE32RoundTrip(x: bv32)
    ensures FromLE32(LE32(x)) == x
  {
    Bytes32Determine(FromLE32(LE32(x)), x);
  }

  /** Reading a field from memory gives back the wrapper whose native value is the wire value. */
  lemma ReadFieldIsWire16(b: seq<bv8>)
    requires |b| == 2
    ensures BeUint16(FromLE16(b)).Native() == FromBE16(b)
  {
    var w := BeUint16(FromLE16(b));
    Bytes16Determine(SwapEndian16(FromBE16(b)), w.m_value);
    SwapEndian16Involutive(FromBE16(b));
  }

  /** Reading a 32-bit field from memory gives the wrapper whose native value is the wire value. */
  lemma ReadFieldIsWire32(b: seq<bv8>)
    requires |b| == 4
    ensures BeUint32(FromLE32(b)).Native() == FromBE32(b)
  {
    var w := BeUint32(FromLE32(b));
    Bytes32Determine(SwapEndian32(FromBE32(b)), w.m_value);
    SwapEndian32Involutive(FromBE32(b));
  }

  // ---------------------------------------------------------------------------
  // The request record

  /** The anonymous packed struct `ReadPcrCommand`. */
  datatype ReadPcrCommand = ReadPcrCommand(tagRqu: BeUint16, size: BeUint32, commandCode: BeUint32, pcrIndex: BeUint32)

  /** The bytes at `&ReadPcrCommand` on a little-endian host: what is submitted. */
  function CommandImage(c: ReadPcrCommand): (b: seq<bv8>)
    ensures |b| == CommandSize
  {
    LE16(c.tagRqu.m_value) + LE32(c.size.m_value) + LE32(c.commandCode.m_value) + LE32(c.pcrIndex.m_value)
  }

  /** The TPM_PCRRead request on the wire, from the native field values. */
  function EncodeCommand(c: ReadPcrCommand): (b: seq<bv8>)
    ensures |b| == CommandSize
  {
    BE16(c.tagRqu.Native()) + BE32(c.size.Native()) + BE32(c.commandCode.Native()) + BE32(c.pcrIndex.Native())
  }

  /** Parses a TPM_PCRRead request; anything but exactly 14 bytes is refused. */
  function DecodeCommand(b: seq<bv8>): (r: Option<ReadPcrCommand>)
    ensures r.Some? <==> |b| == CommandSize
  {
    if |b| != CommandSize then None
    else Some(ReadPcrCommand(FromNative16(FromBE16(b[0..2])), FromNative32(FromBE32(b[2..6])),
                             FromNative32(FromBE32(b[6..10])), FromNative32(FromBE32(b[10..14]))))
  }

  /** What the program submits is the big-endian wire encoding: no padding, no host order leaks. */
  lemma CommandImageIsWire(c: ReadPcrCommand)
    ensures CommandImage(c) == EncodeCommand(c)
  {
    MemoryImageIsWire16(c.tagRqu);
    MemoryImageIsWire32(c.size);
    MemoryImageIsWire32(c.commandCode);
    MemoryImageIsWire32(c.pcrIndex);
  }

  /** Decoding an encoded request gives the same record back. */
  lemma DecodeEncodeCommand(c: ReadPcrCommand)
    ensures DecodeCommand(EncodeCommand(c)) == Some(c)
  {
    var b := EncodeCommand(c);
    assert b[0..2] == BE16(c.tagRqu.Native());
    assert b[2..6] == BE32(c.size.Native());
    assert b[6..10] == BE32(c.commandCode.Native());
    assert b[10..14] == BE32(c.pcrIndex.Native());
    BE16RoundTrip(c.tagRqu.Native(), []);
    BE32RoundTrip(c.size.Native(), []);
    BE32RoundTrip(c.commandCode.Native(), []);
    BE32RoundTrip(c.pcrIndex.Native(), []);
    StoredIsSwappedNative16(c.tagRqu);
    StoredIsSwappedNative32(c.size);
    StoredIsSwappedNative32(c.commandCode);
    StoredIsSwappedNative32(c.pcrIndex);
  }

  /** Every 14-byte sequence is the encoding of the request it decodes to. */
  lemma EncodeDecodeCommand(b: seq<bv8>)
    requires |b| == CommandSize
    ensures EncodeCommand(DecodeCommand(b).value) == b
  {
    BE16RoundTrip(0, b[0..2]);
    BE32RoundTrip(0, b[2..6]);
    BE32RoundTrip(0, b[6..10]);
    BE32RoundTrip(0, b[10..14]);
    assert b == b[0..2] + b[2..6] + b[6..10] + b[10..14];
  }

  // ---------------------------------------------------------------------------
  // The response record

  /** The anonymous packed struct `ReadPcrReply`. */
  datatype ReadPcrReply = ReadPcrReply(tagRsp: BeUint16, size: BeUint32, resultCode: BeUint32, pcrValue: seq<bv8>)

  /** Reads the fields of `ReadPcrReply` from the 30 bytes the transport filled in. */
  function ReplyFromImage(buf: seq<bv8>): (r: ReadPcrReply)
    requires |buf| == ReplySize
    ensures |r.pcrValue| == DigestSize
  {
    ReadPcrReply(BeUint16(FromLE16(buf[0..2])), BeUint32(FromLE32(buf[2..6])),
                 BeUint32(FromLE32(buf[6..10])), buf[DigestOffset..ReplySize])
  }

  /** The TPM_PCRRead response on the wire, from the native field values. */
  function EncodeReply(r: ReadPcrReply): (b: seq<bv8>)
    requires |r.pcrValue| == DigestSize
    ensures |b| == ReplySize
  {
    BE16(r.tagRsp.Native()) + BE32(r.size.Native()) + BE32(r.resultCode.Native()) + r.pcrValue
  }

  /** Parses a TPM_PCRRead response; anything but exactly 30 bytes is refused. */
  function DecodeReply(b: seq<bv8>): (r: Option<ReadPcrReply>)
    ensures r.Some? <==> |b| == ReplySize
    ensures r.Some? ==> |r.value.pcrValue| == DigestSize
  {
    if |b| != ReplySize then None
    else Some(ReadPcrReply(FromNative16(FromBE16(b[0..2])), FromNative32(FromBE32(b[2..6])),
                           FromNative32(FromBE32(b[6..10])), b[DigestOffset..ReplySize]))
  }

  /**
   * Reading the packed reply struct on a little-endian host decodes the
   * big-endian wire response, and its digest is the 20 bytes at offset 10.
   */
  lemma ReplyImageIsWire(buf: seq<bv8>)
    requires |buf| == ReplySize
    ensures DecodeReply(buf) == Some(ReplyFromImage(buf))
    ensures ReplyFromImage(buf).pcrValue == buf[DigestOffset..DigestOffset + DigestSize]
  {
    var r := ReplyFromImage(buf);
    ReadFieldIsWire16(buf[0..2]);
    ReadFieldIsWire32(buf[2..6]);
    ReadFieldIsWire32(buf[6..10]);
    StoredIsSwappedNative16(r.tagRsp);
    StoredIsSwappedNative32(r.size);
    StoredIsSwappedNative32(r.resultCode);
  }

  /** Decoding an encoded response gives the same record back. */
  lemma DecodeEncodeReply(r: ReadPcrReply)
    requires |r.pcrValue| == DigestSize
    ensures DecodeReply(EncodeReply(r)) == Some(r)
  {
    var b := EncodeReply(r);
    assert b[0..2] == BE16(r.tagRsp.Native());
    assert b[2..6] == BE32(r.size.Native());
    assert b[6..10] == BE32(r.resultCode.Native());
    assert b[DigestOffset..ReplySize] == r.pcrValue;
    BE16RoundTrip(r.tagRsp.Native(), []);
    BE32RoundTrip(r.size.Native(), []);
    BE32RoundTrip(r.resultCode.Native(), []);
    StoredIsSwappedNative16(r.tagRsp);
    StoredIsSwappedNative32(r.size);
    StoredIsSwappedNative32(r.resultCode);
  }

  /** Every 30-byte sequence is the encoding of the response it decodes to. */
  lemma EncodeDecodeReply(b: seq<bv8>)
    requires |b| == ReplySize
    ensures EncodeReply(DecodeReply(b).value) == b
  {
    BE16RoundTrip(0, b[0..2]);
    BE32RoundTrip(0, b[2..6]);
    BE32RoundTrip(0, b[6..10]);
    assert b == b[0..2] + b[2..6] + b[6..10] + b[DigestOffset..ReplySize];
  }
}
