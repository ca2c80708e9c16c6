# minecraft-rcon packet codec in Dafny

This project models the packet codec of the `minecraft-rcon` command-line client: the C file `src/rcon.c` and the declarations in `src/rcon.h`. An RCON frame is laid out as follows:

    [length: int32][request id: int32][type: int32][payload: n bytes][0x00][0x00]

Every integer is little-endian. `length` counts everything after itself, so `length == n + 10`.

The codec has five parts:

- **Integer writer** (`rcon_write_int`). It stores four bytes into a caller's buffer. It fails with -1 when fewer than four bytes remain.
- **Integer reader** (`rcon_read_int`). It rebuilds an `int32_t` from four bytes by OR-ing in each byte, shifted into place.
- **Encoder** (`rcon_construct_packet`). It fills in the packet's `length` field, then writes the frame into the send buffer.
- **Decoder** (`rcon_parse_packet`). It fills a packet from a received buffer.
- **Error messages** (`rcon_strerror`). It maps an error code to a message.

Files:

- `rcon_h.dfy`, module `RconHeader`. It holds the packet types and buffer budgets, the byte and integer types, and the packet record as a class.
- `rcon.dfy`, module `Rcon`. It holds the codec.

How the C code maps onto Dafny:

- **Buffers.** A buffer is an `array<Byte>`. `Byte` is the bit pattern of a `char`, read unsigned (0..255).
- **Buffer offsets.** The C code advances the buffer pointer (`_buffer + bytecount`). The model passes an explicit offset `at` instead.
- **Integers.** An `int32_t` is an integer in [-2^31, 2^31). Its bit pattern is the datatype `Word`, four bytes with the least significant first.
  - `ToWord` and `ValueOf` translate between the two, and they are proved mutual inverses.
  - The codec shifts only by whole bytes. So `>>` is floor division by 256, which is the arithmetic shift. `<<` and `|` are byte moves and bytewise ORs on `Word`.
  - `|` on bytes is defined bit by bit (`BitOr`).
- **Integer writer and reader.** Each is a method with the source's loop. The writer is specified by `IntBytes` and the reader by `SignedRead`.
- **Encoder.** `rcon_construct_packet` changes the packet record and the buffer in place. So it is the method `Construct`, which writes `packet.length` and the array. It is specified by the frame function `Encode`.
- **Decoder.** `rcon_parse_packet` becomes `Parse`. It fills the packet record and is specified by the function `Decode`.
- **Signed `char`.** Plain `char` is signed on ABIs such as x86 and x86-64 and unsigned on others, such as ARM and AArch64 Linux. The reader `ReadInt` models the code on an ABI where `char` is signed. There the reader widens every byte with its top bit set to a negative number, and the bytes above it fill with ones.
  - This is proved to matter: a written integer is read back unchanged exactly when it is "sign-safe" (`SignSafe`).
  - The corrected reader, which widens through `unsigned char`, reads every integer back exactly. It is also what the code as written does where `char` is unsigned.

The code leaves some checks undone, and the model keeps them undone:

- The decoder checks neither the length field against the bytes received nor the pad. A `//TODO check validity` marks the place (src/rcon.c:71).
- The encoder's capacity check compares the capacity with the constant 1460, not with the size of the frame, although its comment reads "Payload does not fit." (src/rcon.c:76-77).
- Both functions fail with the plain value -1. The messages "Buffer size incorrect." and "Malformed packet recieved." (src/rcon.c:29-30) are returned by no function in the code.

## Model

| member | source | states |
|---|---|---|
| RconHeader.Packet.constructor | src/main.c:66 | A packet as the client initialises one, with `length` 0 for the encoder to fill in, and the given id, type and payload. |
| Rcon.ToWordValueOf | src/rcon.c:49 | Reading an `int32_t` from a 4-byte pattern and taking its pattern again gives the same 4 bytes. |
| Rcon.ValueOfToWord | src/rcon.c:38 | Every `int32_t` is the two's-complement value of its 4-byte pattern. |
| Rcon.BitOrBound | src/rcon.c:49 | OR of two n-bit numbers is an n-bit number. So `|` on bytes stays a byte. |
| Rcon.BitOrOnes | src/rcon.c:49 | OR with all ones gives all ones, on either side. This is what makes a sign-extended byte overwrite the bytes above it. |
| Rcon.ByteOrUnitAndOnes | src/rcon.c:49 | For bytes, 0 is the unit of `|` and 0xFF absorbs. |
| Rcon.WriteInt | src/rcon.c:33-41 | With fewer than 4 bytes left, returns -1 and leaves the buffer unchanged. Otherwise returns 4, stores `IntBytes(data)` at the offset, and changes no other byte. |
| Rcon.IntBytesLittleEndian | src/rcon.c:37-38 | The bytes written, read as an unsigned little-endian number, equal the value modulo 2^32. |
| Rcon.IntBytesInjective | src/rcon.c:37-38 | Distinct integers are written as distinct bytes. |
| Rcon.IntBytesOnto | src/rcon.c:37-38 | Every 4-byte sequence is what the writer stores for some `int32_t`. |
| Rcon.EndiannessExample | src/rcon.c:37-38 | 0x01020304 is written 04 03 02 01, and -1 as four 0xFF bytes, whatever the host's byte order. |
| Rcon.ReadInt | src/rcon.c:43-52 | With fewer than 4 bytes left, returns -1 and leaves the destination as it was. Otherwise returns 4 and the value `SignedRead` gives for the four bytes at the offset. |
| Rcon.WidenWord | src/rcon.c:49 | A byte widened through signed `char` has the byte followed by three copies of its sign fill (0 or 0xFF) as its pattern. Through `unsigned char` the three bytes above it are zeros. |
| Rcon.AccumulatedStep | src/rcon.c:48-49 | One iteration of the reader's loop, on bit patterns, ORs in the widened byte shifted by 8i bits. |
| Rcon.SignedReadBytes | src/rcon.c:47-49 | The signed reader returns the integer whose bytes are the input with every byte after the first one whose top bit is set replaced by 0xFF. |
| Rcon.ReadWriteRoundTrip | src/rcon.c:33-52 | The reader gives back what the writer stored if and only if the value is sign-safe. |
| Rcon.SignedReadLowBytesClear | src/rcon.c:47-49 | If the first three bytes have the top bit clear, the signed reader returns the integer those four bytes encode. |
| Rcon.LowBytesClearSafe | src/rcon.c:37-38 | An integer whose three low bytes have the top bit clear is sign-safe. |
| Rcon.ClientValuesSignSafe | src/main.c:66-79 | The request ids 1337 and 6969, the login, command and response types, and the login-failure id -1 all round-trip through the codec. |
| Rcon.SignExtensionCorrupts | src/rcon.c:49 | 128 is written as 80 00 00 00, and the reader returns -128 for those bytes. |
| Rcon.SmallNegativeBytes | src/rcon.c:37-38 | A value in [-128, 0) is written as its low byte followed by three 0xFF bytes. |
| Rcon.HighFirstByteRead | src/rcon.c:49 | The reader returns -128 for the bytes 80 00 00 00. |
| Rcon.ReadIntUnsigned | src/rcon.c:43-52 | The reader corrected to widen through `unsigned char`. Same error case as `ReadInt`. Otherwise its result is exactly the integer the four bytes encode. |
| Rcon.UnsignedReadBytes | src/rcon.c:47-49 | Widening through `unsigned char`, the four bytes read back as the integer whose encoding they are. |
| Rcon.UnsignedRoundTrip | src/rcon.c:33-52 | With the corrected reader, every `int32_t` that is written is read back exactly. |
| Rcon.EncodeLayout | src/rcon.c:79-92 | The frame is n + 14 bytes: length n + 10 at offset 0, id at 4, type at 8, payload at 12, then two zero bytes. |
| Rcon.DecodeParts | src/rcon.c:58-72 | A frame of at least 14 bytes decodes to the three header integers read at offsets 0, 4 and 8, and the bytes from 12 up to the last two. |
| Rcon.DecodePrefix | src/rcon.c:58-72 | The same holds for the first `len` bytes of a longer buffer. |
| Rcon.CopyBytes | src/rcon.c:86-89 | `memcpy`: the target range holds the source bytes and every other byte is unchanged. |
| Rcon.WrittenStep | src/rcon.c:82-90 | Writing the next part of the frame, and nothing else, extends the written prefix and keeps the bytes past the frame. |
| Rcon.WriteFrame | src/rcon.c:79-92 | Sets `length` to n + 10 and returns n + 14. The buffer then starts with `Encode(id, type, payload)`, and every byte after the frame is unchanged. |
| Rcon.Construct | src/rcon.c:75-93 | Below the 1460-byte send budget: returns -1 and leaves buffer and packet unchanged. Otherwise: `length` is n + 10, the result is `length` + 4, the frame is written at the start, and the rest of the buffer is unchanged. |
| Rcon.ConstructChecked | src/rcon.c:75-77 | The corrected guard: -1 with nothing touched exactly when the frame would not fit in `len`. Otherwise the frame as in `Construct`, whose size is at most `len`. |
| Rcon.SendGuardAdmitsOverflow | src/rcon.c:76-77 | With the client's 1460-byte send buffer, which passes the guard whatever the payload, the frame fits exactly when the payload has at most 1446 bytes. A 1447-byte payload needs 1461 bytes. |
| Rcon.Parse | src/rcon.c:54-73 | Below 14 bytes: returns -1 and leaves the packet unchanged. Otherwise: returns `len`, and the packet's length, id, type and payload are what `Decode` gives for the first `len` bytes. |
| Rcon.DecodeEncode | src/rcon.c:54-93 | Decoding an encoded frame always succeeds and always recovers the payload. It recovers the id, the type and the length n + 10 each if and only if that value is sign-safe. |
| Rcon.DecodeUnsignedEncode | src/rcon.c:54-93 | With the reader corrected to `unsigned char`, decoding an encoded frame recovers the length n + 10, the id, the type and the payload exactly, for every value. |
| Rcon.DecodeIgnoresPad | src/rcon.c:70-71 | Any two pad bytes decode alike. |
| Rcon.DecodeAcceptsWrongLength | src/rcon.c:71 | Fourteen zero bytes are accepted with length field 0, which differs from the 10 bytes that follow the length field. |
| Rcon.ZerosRead | src/rcon.c:47-49 | Four zero bytes read as 0. |
| Rcon.LengthMisreadExample | src/rcon.c:60 | For a 118-byte payload, the decoder reads the length of the client's own frame (128) as -128. |
| Rcon.StrError | src/rcon.c:95-97 | Codes 0..4 give their own message, codes above 4 give "Undefined Error.", and every result is a message of the table. |
| Rcon.StrErrorDistinct | src/rcon.c:25-31 | The five codes of the table have five different messages. |

## Left out

- The client program in `src/main.c` is not part of this model. This covers its sockets, argument parsing, login check and output. The client's packet initialisation is modelled only as the `Packet` constructor.
- The decoder's `malloc` of the payload and its unchecked result are not modelled; the payload becomes a fresh sequence. No function in the code frees a payload: `src/main.c` never frees `rcon_result.payload`, and it leaks the first one when src/main.c:86 decodes into the same record again.
- Printing the payload with `printf("%s")` can read past the end of a payload that lacks a terminator. This is left out because it belongs to the client.
- Responses split over several packets are not reassembled. Neither is a `recv` that returns part of a frame, or more than one frame. The decoder sees exactly the bytes it is given.
- `payload_len` is the length of the payload sequence, so a record whose count disagrees with its payload cannot be expressed.
- The signedness of `char` is implementation-defined. `ReadInt` models an ABI where `char` is signed (x86, x86-64). `ReadIntUnsigned` is both the correction and the code's behaviour where `char` is unsigned.
- `<<` of a negative `int32_t` is undefined in C, and so is the corrected reader's `(int32_t)c << 24` for c >= 0x80, which overflows a signed `int`. The `(char)` conversion of an out-of-range value at src/rcon.c:38 is implementation-defined. The model takes the two's-complement wrap-around that common compilers produce in all three cases.
- Construct: inputs with `len >= 2^31` are excluded by precondition. In C the `uint32_t` difference `_len - bytecount` is converted to `int`, which then goes negative.
- Construct: a frame that passes the 1460-byte guard must still fit in `len` bytes, and this is a precondition. The source does not check it and writes past the buffer (see Findings).
- Parse: inputs with `len >= 2^31` are excluded by precondition. In C they drive the conversions between `uint32_t` and `int` at src/rcon.c:60-64 out of range. One such value does arise: an unchecked `recv` failure (-1, passed on at src/main.c:71-72 and src/main.c:85-86) arrives as `_len` = 2^32 - 1. Then the three integer reads get an `int` length of -1, 0 and 1 and all fail, `bytecount` drops to -3, the payload length comes out 0, and the function returns -1. The header fields are left untouched and the payload is `malloc(0)`. The model does not cover this case.
- Parse: `len` must not exceed the buffer's size. The C function trusts its caller for this.
- StrError: negative codes are excluded by precondition. In C they index before the message table.

## Findings

| source | as written | input that shows it | evidently intended | confidence | as-written member | corrected member |
|---|---|---|---|---|---|---|
| src/rcon.c:49 | each byte is cast from signed `char` to `int32_t` before OR-ing, so a byte with its top bit set fills the bytes above it with ones | where `char` is signed (x86, x86-64): the integer 128, bytes 80 00 00 00, is read as -128, and a 118-byte payload's frame length 128 is read back as -128. Where `char` is unsigned the defect does not arise | widen each byte through `unsigned char`, so every written integer reads back unchanged | high; not executed | Rcon.SignExtensionCorrupts | Rcon.ReadIntUnsigned, Rcon.DecodeUnsignedEncode |
| src/rcon.c:76 | the guard compares the capacity with the constant 1460, not with the frame size | a 1447-byte payload with `_len` = 1460, the client's send buffer, passes the guard and needs 1461 bytes, writing one byte past the buffer | fail when `_len` < payload + 14 | high; not executed | Rcon.SendGuardAdmitsOverflow | Rcon.ConstructChecked |
