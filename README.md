# readpcr: a verified model of the TPM 1.2 PCR-read codec and driver

`readpcr` is a small Windows program that asks a TPM 1.2 for the values of
its Platform Configuration Registers 0 to 23 through the TPM Base Services
(TBS) and prints each digest. This project models its core in Dafny:

- `ByteSwap` (`byte_swap.dfy`): the two overloads of `SwapEndian`, with the
  16-bit one's promotion to `int` and truncation on return written out.
- `BigEndianValue` (`be_uint.dfy`): the class template `BE_uint<N>` at
  `uint16_t` and `uint32_t`, as value datatypes whose field `m_value` holds
  the byte-swapped native value. The constructors, `operator=`,
  `operator N`, `be_value` and `le_value` are functions over those values.
- `PcrCodec` (`pcr_codec.dfy`): the packed `ReadPcrCommand` (14 bytes) and
  `ReadPcrReply` (30 bytes) records of TPM_PCRRead (TCG TPM Main
  Specification 1.2, Part 3, section 16.2). Each record has an explicit
  big-endian wire encoder and decoder. There is also the memory image that
  the program really submits: the `m_value` fields laid out on a
  little-endian host. The lemmas prove the two coincide.
- `PcrFormat` (`pcr_format.dfy`): the text of an output line (`"PCR"`,
  `%02d` of the index, a space, then `' '` and `%02X` for each digest byte).
  Parsers for that text serve as its inverse.
- `PcrReader` (`read_pcr.dfy`): `main` as two methods. `ReadRegisters` is
  the 0..23 loop. It keeps one reply buffer, an array overwritten by every
  submission. `ReadPcrs` wraps the loop in context creation and closing.
  The TBS calls are inputs. Each submission's outcome is a TBS result code
  plus the bytes the transport wrote at the start of the reply buffer. The
  buffer's initial contents are an input as well. In the program the
  header fields start at zero and only `pcr_value` is indeterminate; letting
  all 30 bytes vary over-approximates that, and the header is never read. Both methods are
  proved against recursive specification functions (`Lines`,
  `ReadDiagnostics`, `BufferAfter`), and lemmas state what those functions
  promise.

The host is assumed to be little-endian (x86 Windows), as the program
itself assumes. `TBS_SUCCESS` is 0.

Notes on the code that the model keeps:
- The request is 14 bytes (2 + 4 + 4 + 4).
- The reply's byte count (`replySize` after the call), `tag_rsp`, `size`
  and `result_code` are never checked before the digest is used.
- The index is followed by two spaces, because the digest loop writes a
  space before every byte.

## Model

| member | source | states |
|---|---|---|
| `ByteSwap.SwapEndian16` | readpcr/readpcr.cpp:25-28 | computed in promoted 32-bit `int` and truncated to 16 bits, the result's low byte is the input's high byte and vice versa |
| `ByteSwap.SwapEndian32` | readpcr/readpcr.cpp:30-34 | byte k of the result is byte 3 - k of the input, for every `uint32_t` |
| `ByteSwap.SwapEndian16Involutive` | readpcr/readpcr.cpp:25-28 | swapping a `uint16_t` twice gives it back |
| `ByteSwap.SwapEndian32Involutive` | readpcr/readpcr.cpp:30-34 | swapping a `uint32_t` twice gives it back |
| `BigEndianValue.Default16` | readpcr/readpcr.cpp:40-42 | a default-constructed `BE_uint<uint16_t>` stores 0 and reads 0 natively and on the wire |
| `BigEndianValue.FromNative16` | readpcr/readpcr.cpp:44-46 | constructing from v stores `SwapEndian(v)`; `operator N` and `le_value` return v |
| `BigEndianValue.BeUint16.Assign` | readpcr/readpcr.cpp:48 | after assigning v, whatever was stored before, the value reads v natively, `be_value` is `SwapEndian(v)`, and it equals the value constructed from v |
| `BigEndianValue.BeUint16.Native` | readpcr/readpcr.cpp:50 | `operator uint16_t` returns the value whose swap is the stored `m_value` |
| `BigEndianValue.BeUint16.BeValue` | readpcr/readpcr.cpp:52 | `be_value` is the swap of the native value |
| `BigEndianValue.BeUint16.LeValue` | readpcr/readpcr.cpp:53 | `le_value` equals the native value and swaps to `be_value` |
| `BigEndianValue.Default32` | readpcr/readpcr.cpp:40-42 | a default-constructed `BE_uint<uint32_t>` stores 0 and reads 0 natively and on the wire |
| `BigEndianValue.FromNative32` | readpcr/readpcr.cpp:44-46 | constructing from v stores `SwapEndian(v)`; `operator N` and `le_value` return v |
| `BigEndianValue.BeUint32.Assign` | readpcr/readpcr.cpp:48 | after assigning v the value reads v, `be_value` is `SwapEndian(v)`, and it equals the value constructed from v |
| `BigEndianValue.BeUint32.Native` | readpcr/readpcr.cpp:50 | `operator uint32_t` returns the value whose swap is the stored `m_value` |
| `BigEndianValue.BeUint32.BeValue` | readpcr/readpcr.cpp:52 | `be_value` is the swap of the native value |
| `BigEndianValue.BeUint32.LeValue` | readpcr/readpcr.cpp:53 | `le_value` equals the native value and swaps to `be_value` |
| `BigEndianValue.StoredIsSwappedNative16` | readpcr/readpcr.cpp:36-57 | class invariant: every stored `m_value` is the swapped form of exactly one native value |
| `BigEndianValue.StoredIsSwappedNative32` | readpcr/readpcr.cpp:36-57 | the same invariant for the 32-bit instantiation |
| `PcrCodec.BE16RoundTrip` | readpcr/readpcr.cpp:79 | big-endian 16-bit encoding and decoding are inverse in both directions |
| `PcrCodec.BE32RoundTrip` | readpcr/readpcr.cpp:80-82 | big-endian 32-bit encoding and decoding are inverse in both directions |
| `PcrCodec.LE16` | readpcr/readpcr.cpp:79 | a 16-bit field occupies 2 bytes of the packed memory image |
| `PcrCodec.LE32` | readpcr/readpcr.cpp:80-82 | a 32-bit field occupies 4 bytes of the packed memory image |
| `PcrCodec.EncodeCommand` | readpcr/readpcr.cpp:76-83 | the wire request from the native field values is 14 bytes; `CommandImageIsWire` and `DecodeEncodeCommand` give its contents |
| `PcrCodec.EncodeReply` | readpcr/readpcr.cpp:85-91 | the wire reply from native fields and a 20-byte digest is 30 bytes; `DecodeEncodeReply` gives its contents |
| `PcrCodec.MemoryImageIsWire16` | readpcr/readpcr.cpp:44-50 | on a little-endian host the memory bytes of a `BE_uint<uint16_t>` are the big-endian encoding of its native value |
| `PcrCodec.MemoryImageIsWire32` | readpcr/readpcr.cpp:44-50 | on a little-endian host the memory bytes of a `BE_uint<uint32_t>` are the big-endian encoding of its native value |
| `PcrCodec.CommandImage` | readpcr/readpcr.cpp:76-83 | the packed request occupies exactly 14 bytes |
| `PcrCodec.CommandImageIsWire` | readpcr/readpcr.cpp:76-83 | the bytes at `&ReadPcrCommand` are tag, size, ordinal and index, each big-endian, in order, with no padding |
| `PcrCodec.DecodeCommand` | readpcr/readpcr.cpp:76-83 | a request decodes exactly when it has 14 bytes |
| `PcrCodec.DecodeEncodeCommand` | readpcr/readpcr.cpp:76-83 | decoding an encoded request gives it back |
| `PcrCodec.EncodeDecodeCommand` | readpcr/readpcr.cpp:76-83 | every 14-byte sequence is the encoding of what it decodes to |
| `PcrCodec.ReplyFromImage` | readpcr/readpcr.cpp:85-91 | reading the packed reply struct yields a 20-byte `pcr_value` |
| `PcrCodec.DecodeReply` | readpcr/readpcr.cpp:85-91 | a reply decodes exactly when it has 30 bytes, and then its digest has 20 bytes |
| `PcrCodec.ReplyImageIsWire` | readpcr/readpcr.cpp:85-91 | reading the packed reply on a little-endian host decodes the big-endian wire reply; the digest is bytes 10..29 |
| `PcrCodec.DecodeEncodeReply` | readpcr/readpcr.cpp:85-91 | decoding an encoded reply gives it back |
| `PcrCodec.EncodeDecodeReply` | readpcr/readpcr.cpp:85-91 | every 30-byte sequence is the encoding of what it decodes to |
| `PcrFormat.Decimal` | readpcr/readpcr.cpp:112 | `%d` of a non-negative value is a non-empty digit string, one digit long exactly below 10 |
| `PcrFormat.Pad2` | readpcr/readpcr.cpp:112 | `%02d` of a non-negative value is at least two decimal digits |
| `PcrFormat.Hex2` | readpcr/readpcr.cpp:117 | `%02X` of a byte is exactly two characters; `ParseHex2OfHex2` gives their value |
| `PcrFormat.HexBytes` | readpcr/readpcr.cpp:115-119 | the digest text has three characters per byte; `HexBytesAt` gives each group |
| `PcrFormat.PcrLine` | readpcr/readpcr.cpp:111-121 | a line starts with "PCR" and is the index digits plus 4 plus three characters per digest byte long |
| `PcrFormat.ParseDecimalOfDecimal` | readpcr/readpcr.cpp:112 | the decimal text of n reads back as n |
| `PcrFormat.ParsePad2` | readpcr/readpcr.cpp:111-112 | `%02d` of n reads back as n, and below 100 it is exactly the tens digit then the units digit |
| `PcrFormat.ParseHex2OfHex2` | readpcr/readpcr.cpp:117 | `%02X` of a byte is two upper-case hex digits that read back as the byte |
| `PcrFormat.Hex2Injective` | readpcr/readpcr.cpp:117 | distinct bytes print differently |
| `PcrFormat.HexBytesAt` | readpcr/readpcr.cpp:115-119 | in the digest text, byte k is a space at 3k followed by its two hex digits |
| `PcrFormat.ParseHexBytesOfHexBytes` | readpcr/readpcr.cpp:115-119 | the digest text reads back as the digest |
| `PcrFormat.PcrLineLayout` | readpcr/readpcr.cpp:111-121 | a line is "PCR", two index digits, a space, then a space and two hex digits per byte (two spaces after the index); it parses back to the index and digest |
| `PcrReader.CommandFor` | readpcr/readpcr.cpp:94-100 | the request populated for register i has `pcr_index` reading i |
| `PcrReader.CommandForFields` | readpcr/readpcr.cpp:94-100 | the populated request reads natively as tag 0xC1, size 14, ordinal 21 and index i |
| `PcrReader.Submissions` | readpcr/readpcr.cpp:98-106 | the loop's first n submissions number exactly n; `SubmissionsInOrder` gives each one |
| `PcrReader.BufferAfter` | readpcr/readpcr.cpp:102-106 | the reply buffer keeps its 30 bytes through every submission |
| `PcrReader.DigestAt` | readpcr/readpcr.cpp:115-117 | the `pcr_value` read after submission i has 20 bytes |
| `PcrReader.Lines` | readpcr/readpcr.cpp:98-123 | the first n iterations print at most n lines; `LinesAreSuccesses` gives exactly which |
| `PcrReader.ReadDiagnostics` | readpcr/readpcr.cpp:107 | the first n iterations report at most n failures; `DiagnosticsAreFailures` gives exactly which |
| `PcrReader.CommandLayout` | readpcr/readpcr.cpp:94-100 | the request for register i is 14 bytes: 00 C1, a size field reading 14, 00 00 00 15, then i; it decodes back to the populated record |
| `PcrReader.SubmissionsInOrder` | readpcr/readpcr.cpp:98-106 | the loop's submissions number exactly as many as its iterations, the i-th being the request for register i with the full 30-byte capacity |
| `PcrReader.DigestField` | readpcr/readpcr.cpp:85-106 | the reply capacity is 30 and the digest is the 20 bytes at offset 10, in both the struct reading and the wire decoding |
| `PcrReader.TransportWrite` | readpcr/readpcr.cpp:104-106 | a submission overwrites only the prefix of the reply buffer that the transport writes |
| `PcrReader.FormatLine` | readpcr/readpcr.cpp:111-121 | the inner loop over the 20 `pcr_value` bytes builds exactly `PcrLine` of the index and the buffer's digest |
| `PcrReader.ReadRegisters` | readpcr/readpcr.cpp:94-123 | the submissions are `Submissions(24)` (request i for index i, in increasing order, full capacity); the lines and diagnostics are those of `Lines` and `ReadDiagnostics`, one per success and one per failure |
| `PcrReader.ReadPcrs` | readpcr/readpcr.cpp:59-126 | on create failure: exit -1, no close, no submission, one diagnostic; otherwise exit 0, exactly one close, the loop's submissions and lines, and a close diagnostic only if closing failed |
| `PcrReader.SuccessesExactly` | readpcr/readpcr.cpp:109 | the successful indices are listed in increasing order, each one exactly when its TBS result was success |
| `PcrReader.LinesAreSuccesses` | readpcr/readpcr.cpp:98-123 | the j-th line is the line of the j-th successful index, with the digest the buffer held after that submission |
| `PcrReader.LineForIndexIffSuccess` | readpcr/readpcr.cpp:98-123 | a line for register i exists exactly when submission i succeeded; a failure drops only its own line |
| `PcrReader.FullReplyDigest` | readpcr/readpcr.cpp:102-117 | when the transport writes a full reply, the digest printed is that reply's decoded `pcr_value` |
| `PcrReader.ShortReplyKeepsStaleDigest` | readpcr/readpcr.cpp:102-117 | the reply size is never checked: a reply of at most 10 bytes leaves the previous digest, or the initial buffer contents, to be printed |
| `PcrReader.DiagnosticsAreFailures` | readpcr/readpcr.cpp:107 | there is one diagnostic per failed submission, naming its index and code, and none otherwise; diagnostics plus successes number the submissions |
| `PcrReader.AllSucceed` | readpcr/readpcr.cpp:98-123 | when all 24 submissions succeed with full replies there are 24 lines, PCR00..PCR23 in order, with their replies' digests, and no diagnostic |
| `PcrReader.AllSucceedUpTo` | readpcr/readpcr.cpp:109 | with no failure the successful indices are exactly 0, 1, ..., n - 1 |
| `PcrReader.OneFailure` | readpcr/readpcr.cpp:98-123 | when only submission f fails there are 23 lines, none for f, and exactly one diagnostic, naming f |
| `PcrReader.OneFailureUpTo` | readpcr/readpcr.cpp:107 | with a single failure f the diagnostics are exactly the one for f once f has been submitted |

## Left out

- The TBS calls `Tbsi_Context_Create`, `Tbsip_Submit_Command` and `Tbsip_Context_Close` are part of the operating system. Their results are inputs (`createStatus`, `outcomes`, `closeStatus`), and so are the bytes the transport writes. The transport is assumed never to write more than the capacity it is given.
- The locality (`TBS_COMMAND_LOCALITY_ZERO`), the priority (`TBS_COMMAND_PRIORITY_NORMAL`) and the context version are constants passed through to TBS. They are not modelled.
- The transport's reported byte count (`replySize` after the call) is not modelled, because the program never reads it. The model does not check it either.
- Console output (`std::cout`, `logResult`) becomes values. Each line is the string before `std::endl`. Each diagnostic is a `Diagnostic` carrying the index and the TBS code, not the message text.
- The `ContextDeleter`/`unique_ptr` guard is recorded only as the number of context closes. Its `nullptr` test is not modelled, because the handle is opaque.
- `#pragma pack` and host byte order are platform facts. They are replaced by explicit byte sequences and a little-endian host assumption.
- The process exit status is modelled as `main`'s return value (-1 or 0), not the status the operating system reports for it.
