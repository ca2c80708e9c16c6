/** The RCON packet codec: little-endian 32-bit integers in a caller's byte
    buffer, the frame encoder and decoder, and the error-message table.

    A frame is
      [length: 4][id: 4][type: 4][payload: n][0x00][0x00]
    with every integer little-endian two's complement and length == n + 10. */
module Rcon {
  import opened RconHeader

  datatype Option<T> = None | Some(value: T)

  /** The header fields and payload the decoder recovers from one frame. */
  datatype Fields = Fields(length: Int32, id: Int32, kind: Int32, payload: seq<Byte>)

  // ---------------------------------------------------------------------
  // int32_t as a two's-complement bit pattern

  /** The bit pattern of an `int32_t`: its four bytes, least significant
      first. The codec shifts only by whole bytes, so its shifts and ORs are
      byte moves and bytewise ORs on this pattern. */
  datatype Word = Word(b0: Byte, b1: Byte, b2: Byte, b3: Byte)

  /** `v >> (8 * k)` on a signed integer: an arithmetic shift, which is
      division by 256, rounding down, k times. */
  function ShiftRight(v: int, k: nat): int
    requires k < 4
  {
    if k == 0 then v
    else if k == 1 then v / 0x100
    else if k == 2 then v / 0x100 / 0x100
    else v / 0x100 / 0x100 / 0x100
  }

  /** `(char)v`: the low eight bits of v. */
  function LowByte(v: int): Byte {
    v % 0x100
  }

  /** The bit pattern of x. */
  function ToWord(x: Int32): Word {
    Word(LowByte(x), LowByte(ShiftRight(x, 1)), LowByte(ShiftRight(x, 2)), LowByte(ShiftRight(x, 3)))
  }

  /** The `int32_t` whose bit pattern is w: the top bit weighs -2^31. */
  function ValueOf(w: Word): Int32 {
    (w.b0 as int) + 0x100 * (w.b1 as int) + 0x1_0000 * (w.b2 as int) + 0x100_0000 * (w.b3 as int)
      - (if w.b3 >= 0x80 then 0x1_0000_0000 else 0)
  }

  /** Reading back the value of a pattern gives the pattern. */
  lemma ToWordValueOf(w: Word)
    ensures ToWord(ValueOf(w)) == w
  {
    var x := ValueOf(w);
    var hi := if w.b3 >= 0x80 then w.b3 - 0x100 else w.b3;
    assert x == w.b0 + 0x100 * (w.b1 + 0x100 * (w.b2 + 0x100 * hi));
    assert x / 0x100 == w.b1 + 0x100 * (w.b2 + 0x100 * hi);
    assert x / 0x100 / 0x100 == w.b2 + 0x100 * hi;
    assert x / 0x100 / 0x100 / 0x100 == hi;
  }

  /** Every `int32_t` is the value of its bit pattern. */
  lemma ValueOfToWord(x: Int32)
    ensures ValueOf(ToWord(x)) == x
  {
    var q1 := x / 0x100;
    var q2 := q1 / 0x100;
    var q3 := q2 / 0x100;
    assert x == LowByte(x) + 0x100 * q1;
    assert q1 == LowByte(q1) + 0x100 * q2;
    assert q2 == LowByte(q2) + 0x100 * q3;
    assert -0x80 <= q3 < 0x80;
  }

  // ---------------------------------------------------------------------
  // Bitwise OR

  function Pow2(n: nat): nat {
    if n == 0 then 1 else 2 * Pow2(n - 1)
  }

  /** `a | b` on non-negative integers, one bit at a time from the lowest. */
  function BitOr(a: nat, b: nat): nat
    decreases a + b
  {
    if a == 0 then b
    else if b == 0 then a
    else 2 * BitOr(a / 2, b / 2) + (if a % 2 == 1 || b % 2 == 1 then 1 else 0)
  }

  /** OR-ing two n-bit numbers gives an n-bit number. */
  lemma {:induction false} BitOrBound(a: nat, b: nat, n: nat)
    requires a < Pow2(n) && b < Pow2(n)
    ensures BitOr(a, b) < Pow2(n)
    decreases n
  {
    if a != 0 && b != 0 {
      BitOrBound(a / 2, b / 2, n - 1);
    }
  }

  /** OR-ing an n-bit number with n one-bits gives n one-bits, from either
      side. */
  lemma {:induction false} BitOrOnes(a: nat, n: nat)
    requires a < Pow2(n)
    ensures BitOr(a, Pow2(n) - 1) == Pow2(n) - 1
    ensures BitOr(Pow2(n) - 1, a) == Pow2(n) - 1
    decreases n
  {
    if n > 0 && a != 0 {
      BitOrOnes(a / 2, n - 1);
    }
  }

  /** `a | b` on bytes. */
  function ByteOr(a: Byte, b: Byte): Byte {
    assert Pow2(8) == 0x100;
    BitOrBound(a, b, 8);
    BitOr(a, b)
  }

  /** Zero is the unit of OR and 0xFF absorbs every byte. */
  lemma ByteOrUnitAndOnes(a: Byte)
    ensures ByteOr(a, 0) == a && ByteOr(0, a) == a
    ensures ByteOr(a, 0xFF) == 0xFF && ByteOr(0xFF, a) == 0xFF
  {
    assert Pow2(8) == 0x100;
    BitOrOnes(a, 8);
  }

  /** Bytewise OR of two patterns. */
  function WordOr(x: Word, y: Word): Word {
    Word(ByteOr(x.b0, y.b0), ByteOr(x.b1, y.b1), ByteOr(x.b2, y.b2), ByteOr(x.b3, y.b3))
  }

  /** A pattern shifted left by k bytes; the bytes shifted out are lost. */
  function WordShiftLeft(x: Word, k: nat): Word
    requires k < 4
  {
    if k == 0 then x
    else if k == 1 then Word(0, x.b0, x.b1, x.b2)
    else if k == 2 then Word(0, 0, x.b0, x.b1)
    else Word(0, 0, 0, x.b0)
  }

  /** `a | b` on `int32_t`. */
  function Or32(a: Int32, b: Int32): Int32 {
    ValueOf(WordOr(ToWord(a), ToWord(b)))
  }

  /** `v << (8 * k)` on `int32_t`, wrapping in two's complement as common
      compilers do where the C standard leaves the result undefined. */
  function ShiftLeft32(v: Int32, k: nat): Int32
    requires k < 4
  {
    ValueOf(WordShiftLeft(ToWord(v), k))
  }

  // ---------------------------------------------------------------------
  // Writing integers

  /** The four bytes the integer writer stores for `data`: byte i is
      `(char)(data >> 8i)`. */
  function IntBytes(data: Int32): (r: seq<Byte>)
    ensures |r| == 4
  {
    [LowByte(ShiftRight(data, 0)), LowByte(ShiftRight(data, 1)), LowByte(ShiftRight(data, 2)),
     LowByte(ShiftRight(data, 3))]
  }

  /** The unsigned little-endian value of four bytes. */
  function LittleEndian(s: seq<Byte>): nat
    requires |s| == 4
  {
    (s[0] as int) + 0x100 * (s[1] as int) + 0x1_0000 * (s[2] as int) + 0x100_0000 * (s[3] as int)
  }

  /** The bytes written are the little-endian two's-complement encoding of
      `data`: read as an unsigned little-endian number they give `data`
      modulo 2^32. */
  lemma IntBytesLittleEndian(data: Int32)
    ensures LittleEndian(IntBytes(data)) == data % 0x1_0000_0000
  {
    ValueOfToWord(data);
  }

  /** Different integers have different encodings. */
  lemma IntBytesInjective(x: Int32, y: Int32)
    requires IntBytes(x) == IntBytes(y)
    ensures x == y
  {
    assert ToWord(x) == ToWord(y);
    ValueOfToWord(x);
    ValueOfToWord(y);
  }

  /** Every four bytes are the encoding of some integer. */
  lemma IntBytesOnto(s: seq<Byte>)
    requires |s| == 4
    ensures IntBytes(ValueOf(Word(s[0], s[1], s[2], s[3]))) == s
  {
    ToWordValueOf(Word(s[0], s[1], s[2], s[3]));
  }

  /** The encoding does not depend on the host: 0x01020304 is 04 03 02 01,
      and -1 is four 0xFF bytes. */
  lemma EndiannessExample()
    ensures IntBytes(0x0102_0304) == [0x04, 0x03, 0x02, 0x01]
    ensures IntBytes(-1) == [0xFF, 0xFF, 0xFF, 0xFF]
  {
  }

  /** Writes `data` little-endian at `buffer[at..at+4]` when the remaining
      length `len` allows four bytes; otherwise fails with -1 and writes
      nothing. */
  method WriteInt(buffer: array<Byte>, at: nat, len: int, data: Int32) returns (r: int)
    requires len >= 4 ==> at + 4 <= buffer.Length
    modifies buffer
    ensures len < 4 ==> r == -1 && buffer[..] == old(buffer[..])
    ensures len >= 4 ==> r == 4 && buffer[at..at + 4] == IntBytes(data)
    ensures len >= 4 ==> forall j :: 0 <= j < buffer.Length && !(at <= j < at + 4) ==> buffer[j] == old(buffer[j])
  {
    if len < 4 {
      return -1;
    }
    for i := 0 to 4
      invariant forall k :: 0 <= k < i ==> buffer[at + k] == IntBytes(data)[k]
      invariant forall j :: 0 <= j < buffer.Length && !(at <= j < at + i) ==> buffer[j] == old(buffer[j])
    {
      buffer[at + i] := LowByte(ShiftRight(data, i));
    }
    return 4;
  }

  // ---------------------------------------------------------------------
  // Reading integers

  /** `(int32_t)c` for a buffer byte c. Where `char` is signed (x86 and
      x86-64, for instance) a byte with its top bit set becomes negative;
      where it is unsigned (ARM and AArch64 Linux, for instance), and through
      `unsigned char` anywhere, it keeps its value. */
  function Widen(c: Byte, signedChar: bool): Int32 {
    if signedChar && c >= 0x80 then c as int - 0x100 else c as int
  }

  /** What the integer reader holds after its first k steps:
      `out |= (int32_t)s[i] << 8i` for each i < k, starting from 0. */
  function Accumulated(s: seq<Byte>, k: nat, signedChar: bool): Int32
    requires k <= |s| && k <= 4
  {
    if k == 0 then 0
    else Or32(Accumulated(s, k - 1, signedChar), ShiftLeft32(Widen(s[k - 1], signedChar), k - 1))
  }

  /** The value the integer reader returns for four bytes, `char` being
      signed. */
  function SignedRead(s: seq<Byte>): Int32
    requires |s| == 4
  {
    Accumulated(s, 4, true)
  }

  /** Reads `buffer[at..at+4]` when the remaining length `len` allows four
      bytes; otherwise fails with -1 and leaves the destination, whose prior
      value is `current`, as it was. */
  method ReadInt(buffer: array<Byte>, at: nat, len: int, current: Int32) returns (r: int, out: Int32)
    requires len >= 4 ==> at + 4 <= buffer.Length
    ensures len < 4 ==> r == -1 && out == current
    ensures len >= 4 ==> r == 4 && out == SignedRead(buffer[at..at + 4])
  {
    if len < 4 {
      return -1, current;
    }
    out := 0;
    for i := 0 to 4
      invariant out == Accumulated(buffer[at..at + 4], i, true)
    {
      assert buffer[at..at + 4][i] == buffer[at + i];
      out := Or32(out, ShiftLeft32(Widen(buffer[at + i], true), i));
    }
    return 4, out;
  }

  /** 0 or 0xFF: the byte a sign extension of c spills into the bytes above
      it. */
  function Fill(c: Byte): Byte {
    if c >= 0x80 then 0xFF else 0
  }

  /** The bit pattern of a widened byte. */
  lemma WidenWord(c: Byte, signedChar: bool)
    ensures signedChar ==> ToWord(Widen(c, signedChar)) == Word(c, Fill(c), Fill(c), Fill(c))
    ensures !signedChar ==> ToWord(Widen(c, signedChar)) == Word(c, 0, 0, 0)
  {
  }

  /** One step of the reader on bit patterns: OR in the widened byte,
      shifted into place. */
  lemma AccumulatedStep(s: seq<Byte>, k: nat, signedChar: bool)
    requires k < |s| && k < 4
    ensures ToWord(Accumulated(s, k + 1, signedChar))
         == WordOr(ToWord(Accumulated(s, k, signedChar)), WordShiftLeft(ToWord(Widen(s[k], signedChar)), k))
  {
    ToWordValueOf(WordShiftLeft(ToWord(Widen(s[k], signedChar)), k));
    ToWordValueOf(WordOr(ToWord(Accumulated(s, k, signedChar)), WordShiftLeft(ToWord(Widen(s[k], signedChar)), k)));
  }

  /** The bytes of what the signed reader returns: every byte after one
      whose top bit is set comes back as 0xFF. */
  function Spilled(s: seq<Byte>): seq<Byte>
    requires |s| == 4
  {
    [s[0],
     if s[0] >= 0x80 then 0xFF else s[1],
     if s[0] >= 0x80 || s[1] >= 0x80 then 0xFF else s[2],
     if s[0] >= 0x80 || s[1] >= 0x80 || s[2] >= 0x80 then 0xFF else s[3]]
  }

  /** The signed reader returns the integer whose encoding is `s` with
      every byte after a sign-extended one replaced by 0xFF. */
  lemma SignedReadBytes(s: seq<Byte>)
    requires |s| == 4
    ensures IntBytes(SignedRead(s)) == Spilled(s)
  {
    ByteOrUnitAndOnes(s[0]);
    ByteOrUnitAndOnes(s[1]);
    ByteOrUnitAndOnes(s[2]);
    ByteOrUnitAndOnes(s[3]);
    ByteOrUnitAndOnes(0);
    ByteOrUnitAndOnes(0xFF);
    WidenWord(s[0], true);
    WidenWord(s[1], true);
    WidenWord(s[2], true);
    WidenWord(s[3], true);
    AccumulatedStep(s, 0, true);
    AccumulatedStep(s, 1, true);
    AccumulatedStep(s, 2, true);
    AccumulatedStep(s, 3, true);
  }

  /** The reader with `char` unsigned returns exactly the integer `s`
      encodes. */
  lemma UnsignedReadBytes(s: seq<Byte>)
    requires |s| == 4
    ensures IntBytes(Accumulated(s, 4, false)) == s
  {
    ByteOrUnitAndOnes(s[0]);
    ByteOrUnitAndOnes(s[1]);
    ByteOrUnitAndOnes(s[2]);
    ByteOrUnitAndOnes(s[3]);
    WidenWord(s[0], false);
    WidenWord(s[1], false);
    WidenWord(s[2], false);
    WidenWord(s[3], false);
    AccumulatedStep(s, 0, false);
    AccumulatedStep(s, 1, false);
    AccumulatedStep(s, 2, false);
    AccumulatedStep(s, 3, false);
  }

  /** An integer survives the signed reader when every byte of its encoding
      after one with the top bit set is 0xFF, i.e. when sign-extending its
      bytes adds nothing that is not already there. */
  predicate SignSafe(x: Int32) {
    var b := IntBytes(x);
    forall i, j :: 0 <= i < j < 4 && b[i] >= 0x80 ==> b[j] == 0xFF
  }

  /** Reading back what was written gives the original integer exactly when
      it is sign-safe. */
  lemma ReadWriteRoundTrip(x: Int32)
    ensures SignedRead(IntBytes(x)) == x <==> SignSafe(x)
  {
    var b := IntBytes(x);
    SignedReadBytes(b);
    if SignSafe(x) {
      assert Spilled(b) == b;
      IntBytesInjective(SignedRead(b), x);
    } else {
      var i, j :| 0 <= i < j < 4 && b[i] >= 0x80 && b[j] != 0xFF;
      assert Spilled(b)[j] != b[j];
    }
  }

  /** Four bytes whose first three have a clear top bit are read as the
      integer they encode. */
  lemma SignedReadLowBytesClear(s: seq<Byte>)
    requires |s| == 4 && s[0] < 0x80 && s[1] < 0x80 && s[2] < 0x80
    ensures IntBytes(SignedRead(s)) == s
  {
    SignedReadBytes(s);
    assert Spilled(s) == s;
  }

  /** An integer whose three low bytes all have the top bit clear is
      sign-safe: no byte before the last one spills. */
  lemma LowBytesClearSafe(x: Int32)
    requires IntBytes(x)[0] < 0x80 && IntBytes(x)[1] < 0x80 && IntBytes(x)[2] < 0x80
    ensures SignSafe(x)
  {
  }

  /** The values the client sends and the server answers with are
      sign-safe: the two request ids, the three packet types and the
      login-failure id. */
  lemma ClientValuesSignSafe()
    ensures SignSafe(1337) && SignSafe(6969)
    ensures SignSafe(LOGIN_TYPE) && SignSafe(COMMAND_TYPE) && SignSafe(RESPONSE_TYPE)
    ensures SignSafe(LOGIN_FAIL)
  {
    assert IntBytes(1337) == [0x39, 0x05, 0, 0];
    LowBytesClearSafe(1337);
    assert IntBytes(6969) == [0x39, 0x1B, 0, 0];
    LowBytesClearSafe(6969);
    LowBytesClearSafe(LOGIN_TYPE);
    LowBytesClearSafe(COMMAND_TYPE);
    LowBytesClearSafe(RESPONSE_TYPE);
    assert IntBytes(LOGIN_FAIL) == [0xFF, 0xFF, 0xFF, 0xFF];
  }

  /** 128 is written as 80 00 00 00, and those bytes are read back as
      -128. */
  lemma SignExtensionCorrupts(b: seq<Byte>)
    requires b == IntBytes(128)
    ensures b == [0x80, 0, 0, 0]
    ensures SignedRead(b) == -128
  {
    HighFirstByteRead(b);
  }

  /** A negative integer of one signed byte is written as that byte followed
      by three 0xFF bytes. */
  lemma SmallNegativeBytes(x: Int32)
    requires -0x80 <= x < 0
    ensures IntBytes(x) == [x + 0x100, 0xFF, 0xFF, 0xFF]
  {
  }

  /** The bytes 80 00 00 00 are read as -128. */
  lemma HighFirstByteRead(b: seq<Byte>)
    requires |b| == 4 && b[0] == 0x80 && b[1] == 0 && b[2] == 0 && b[3] == 0
    ensures SignedRead(b) == -128
  {
    SignedReadBytes(b);
    assert Spilled(b) == [0x80, 0xFF, 0xFF, 0xFF];
    SmallNegativeBytes(-128);
    IntBytesInjective(SignedRead(b), -128);
  }

  /** The reader with the byte widened through `unsigned char`. */
  method ReadIntUnsigned(buffer: array<Byte>, at: nat, len: int, current: Int32) returns (r: int, out: Int32)
    requires len >= 4 ==> at + 4 <= buffer.Length
    ensures len < 4 ==> r == -1 && out == current
    ensures len >= 4 ==> r == 4 && IntBytes(out) == buffer[at..at + 4]
  {
    if len < 4 {
      return -1, current;
    }
    out := 0;
    for i := 0 to 4
      invariant out == Accumulated(buffer[at..at + 4], i, false)
    {
      assert buffer[at..at + 4][i] == buffer[at + i];
      out := Or32(out, ShiftLeft32(Widen(buffer[at + i], false), i));
    }
    UnsignedReadBytes(buffer[at..at + 4]);
    return 4, out;
  }

  /** With `char` unsigned, every written integer is read back exactly. */
  lemma UnsignedRoundTrip(x: Int32)
    ensures Accumulated(IntBytes(x), 4, false) == x
  {
    UnsignedReadBytes(IntBytes(x));
    IntBytesInjective(Accumulated(IntBytes(x), 4, false), x);
  }

  // ---------------------------------------------------------------------
  // Frames

  /** The frame the encoder writes for a payload of n bytes: length n + 10,
      id, type, the payload and two zero bytes. */
  function Encode(id: Int32, kind: Int32, payload: seq<Byte>): seq<Byte>
    requires |payload| + 10 < 0x8000_0000
  {
    IntBytes(|payload| + 10) + IntBytes(id) + IntBytes(kind) + payload + [0, 0]
  }

  /** Where each part of an encoded frame lies. */
  lemma EncodeLayout(id: Int32, kind: Int32, payload: seq<Byte>)
    requires |payload| + 10 < 0x8000_0000
    ensures var e := Encode(id, kind, payload); var n := |payload|;
      && |e| == n + 14
      && e[0..4] == IntBytes(n + 10)
      && e[4..8] == IntBytes(id)
      && e[8..12] == IntBytes(kind)
      && e[12..12 + n] == payload
      && e[12 + n..] == [0, 0]
  {
  }

  /** Decoding a frame of at least 14 bytes, given what its parts read as. */
  lemma DecodeParts(frame: seq<Byte>, length: Int32, id: Int32, kind: Int32, payload: seq<Byte>)
    requires |frame| >= 14
    requires length == SignedRead(frame[0..4]) && id == SignedRead(frame[4..8]) && kind == SignedRead(frame[8..12])
    requires payload == frame[12..|frame| - 2]
    ensures Decode(frame) == Some(Fields(length, id, kind, payload))
  {
  }

  /** The same for the first `len` bytes of a longer buffer. */
  lemma DecodePrefix(buf: seq<Byte>, len: nat, length: Int32, id: Int32, kind: Int32, payload: seq<Byte>)
    requires 14 <= len <= |buf|
    requires length == SignedRead(buf[0..4]) && id == SignedRead(buf[4..8]) && kind == SignedRead(buf[8..12])
    requires payload == buf[12..len - 2]
    ensures Decode(buf[..len]) == Some(Fields(length, id, kind, payload))
  {
    var frame := buf[..len];
    assert frame[0..4] == buf[0..4];
    assert frame[4..8] == buf[4..8];
    assert frame[8..12] == buf[8..12];
    assert frame[12..len - 2] == buf[12..len - 2];
    DecodeParts(frame, length, id, kind, payload);
  }

  /** What the decoder recovers from a received buffer of |frame| bytes.
      Fewer than 14 bytes is an error; otherwise the header comes from
      offsets 0, 4 and 8, the payload is everything up to the last two bytes,
      and neither the pad nor the length field is checked. */
  function Decode(frame: seq<Byte>): (d: Option<Fields>)
  {
    if |frame| < 14 then None
    else Some(Fields(SignedRead(frame[0..4]), SignedRead(frame[4..8]), SignedRead(frame[8..12]),
                     frame[12..|frame| - 2]))
  }

  /** Copies `src` into `buffer` at `at`, as `memcpy` does. */
  method CopyBytes(buffer: array<Byte>, at: nat, src: seq<Byte>)
    requires at + |src| <= buffer.Length
    modifies buffer
    ensures buffer[at..at + |src|] == src
    ensures forall j :: 0 <= j < buffer.Length && !(at <= j < at + |src|) ==> buffer[j] == old(buffer[j])
  {
    forall j | at <= j < at + |src| {
      buffer[j] := src[j - at];
    }
  }

  /** `b` holds the first `i` bytes of frame `e` at its start and, past the
      frame's end, still the bytes of `orig`. */
  ghost predicate Written(b: seq<Byte>, orig: seq<Byte>, e: seq<Byte>, i: nat) {
    |b| == |orig| && |e| <= |b| && i <= |e| && b[..i] == e[..i] && b[|e|..] == orig[|e|..]
  }

  /** Writing the next part `e[i..j]` of the frame, and nothing else, extends
      what is written from `i` to `j` bytes. */
  lemma WrittenStep(prev: seq<Byte>, b: seq<Byte>, orig: seq<Byte>, e: seq<Byte>, i: nat, j: nat)
    requires Written(prev, orig, e, i) && i <= j <= |e| && |b| == |prev|
    requires b[i..j] == e[i..j]
    requires forall k :: 0 <= k < |b| && !(i <= k < j) ==> b[k] == prev[k]
    ensures Written(b, orig, e, j)
  {
    assert b[..j] == b[..i] + b[i..j];
    assert e[..j] == e[..i] + e[i..j];
    assert b[..i] == prev[..i];
    assert b[|e|..] == prev[|e|..];
  }

  /** The encoder after its capacity guard: sets the packet's length to
      payload + 10 and writes the whole frame at the start of `buffer`. The
      caller must leave room for the frame; nothing here checks it. */
  method WriteFrame(buffer: array<Byte>, len: Uint32, packet: Packet) returns (r: int)
    requires |packet.payload| + 14 <= len <= buffer.Length && len < 0x8000_0000
    modifies buffer, packet`length
    ensures packet.length == |packet.payload| + 10
    ensures r == |packet.payload| + 14
    ensures buffer[..r] == Encode(packet.id, packet.kind, packet.payload)
    ensures buffer[r..] == old(buffer[r..])
  {
    var n := |packet.payload|;
    ghost var e := Encode(packet.id, packet.kind, packet.payload);
    ghost var orig := buffer[..];
    EncodeLayout(packet.id, packet.kind, packet.payload);
    var bytecount := 0;
    packet.length := n + 10;
    ghost var prev := buffer[..];
    var written := WriteInt(buffer, bytecount, len - bytecount, packet.length);
    bytecount := bytecount + written;
    WrittenStep(prev, buffer[..], orig, e, 0, 4);
    prev := buffer[..];
    written := WriteInt(buffer, bytecount, len - bytecount, packet.id);
    bytecount := bytecount + written;
    WrittenStep(prev, buffer[..], orig, e, 4, 8);
    prev := buffer[..];
    written := WriteInt(buffer, bytecount, len - bytecount, packet.kind);
    bytecount := bytecount + written;
    WrittenStep(prev, buffer[..], orig, e, 8, 12);
    prev := buffer[..];
    CopyBytes(buffer, bytecount, packet.payload);
    bytecount := bytecount + n;
    WrittenStep(prev, buffer[..], orig, e, 12, 12 + n);
    prev := buffer[..];
    CopyBytes(buffer, bytecount, [0, 0]);
    bytecount := bytecount + 2;
    WrittenStep(prev, buffer[..], orig, e, 12 + n, 14 + n);
    assert e[..bytecount] == e;
    return bytecount;
  }

  /** The encoder as written: fails with -1, touching nothing, when the
      declared capacity is below the send budget; otherwise writes the frame
      and returns its size. The guard looks at the constant budget and not at
      the frame, so the caller must keep the frame within `len`. */
  method Construct(buffer: array<Byte>, len: Uint32, packet: Packet) returns (r: int)
    requires len <= buffer.Length
    requires len >= SEND_PKGSIZE ==> |packet.payload| + 14 <= len < 0x8000_0000
    modifies buffer, packet`length
    ensures len < SEND_PKGSIZE ==> r == -1 && buffer[..] == old(buffer[..]) && packet.length == old(packet.length)
    ensures len >= SEND_PKGSIZE ==>
      && packet.length == |packet.payload| + 10
      && r == packet.length + 4
      && buffer[..r] == Encode(packet.id, packet.kind, packet.payload)
      && buffer[r..] == old(buffer[r..])
  {
    if len < SEND_PKGSIZE {
      return -1;
    }
    r := WriteFrame(buffer, len, packet);
  }

  /** The encoder with the capacity check evidently intended: fails with -1,
      touching nothing, exactly when the frame does not fit in `len` bytes. */
  method ConstructChecked(buffer: array<Byte>, len: Uint32, packet: Packet) returns (r: int)
    requires len <= buffer.Length && len < 0x8000_0000
    modifies buffer, packet`length
    ensures len < |packet.payload| + 14 ==> r == -1 && buffer[..] == old(buffer[..]) && packet.length == old(packet.length)
    ensures len >= |packet.payload| + 14 ==>
      && packet.length == |packet.payload| + 10
      && r == packet.length + 4 <= len
      && buffer[..r] == Encode(packet.id, packet.kind, packet.payload)
      && buffer[r..] == old(buffer[r..])
  {
    if len < |packet.payload| + 14 {
      return -1;
    }
    r := WriteFrame(buffer, len, packet);
  }

  /** The encoder's capacity guard admits a frame larger than the capacity:
      with the client's own 1460-byte send buffer the guard passes whatever
      the payload, yet the frame fits only when the payload has at most
      1446 bytes. A 1447-byte payload needs 1461 bytes. */
  lemma SendGuardAdmitsOverflow(len: nat, id: Int32, kind: Int32, payload: seq<Byte>)
    requires len == SEND_PKGSIZE && |payload| + 10 < 0x8000_0000
    ensures |Encode(id, kind, payload)| <= len <==> |payload| <= SEND_PKGSIZE - 14
    ensures |payload| == 1447 ==> |Encode(id, kind, payload)| == len + 1
  {
    EncodeLayout(id, kind, payload);
  }

  /** The decoder: fails with -1, touching nothing, on fewer than 14 bytes;
      otherwise fills the packet from the first `len` bytes of `buffer` and
      returns `len`. */
  method Parse(packet: Packet, buffer: array<Byte>, len: Uint32) returns (r: int)
    requires len <= buffer.Length && len < 0x8000_0000
    modifies packet
    ensures len < 14 ==> r == -1 && unchanged(packet)
    ensures len >= 14 ==> r == len && Decode(buffer[..len]) == Some(Fields(packet.length, packet.id, packet.kind, packet.payload))
  {
    if len < 14 {
      return -1;
    }
    var bytecount := 0;
    var read;
    read, packet.length := ReadInt(buffer, bytecount, len - bytecount, packet.length);
    bytecount := bytecount + read;
    read, packet.id := ReadInt(buffer, bytecount, len - bytecount, packet.id);
    bytecount := bytecount + read;
    read, packet.kind := ReadInt(buffer, bytecount, len - bytecount, packet.kind);
    bytecount := bytecount + read;
    var payloadLen := len - bytecount - 2;
    packet.payload := buffer[bytecount..bytecount + payloadLen];
    bytecount := bytecount + payloadLen;
    bytecount := bytecount + 2;
    DecodePrefix(buffer[..], len, packet.length, packet.id, packet.kind, packet.payload);
    return bytecount;
  }

  /** Decoding an encoded frame always recovers the payload; it recovers the
      id, the type and the length n + 10 each exactly when that value is
      sign-safe. */
  lemma DecodeEncode(id: Int32, kind: Int32, payload: seq<Byte>)
    requires |payload| + 10 < 0x8000_0000
    ensures Decode(Encode(id, kind, payload)).Some?
    ensures var d := Decode(Encode(id, kind, payload)).value;
      && d.payload == payload
      && (d.id == id <==> SignSafe(id))
      && (d.kind == kind <==> SignSafe(kind))
      && (d.length == |payload| + 10 <==> SignSafe(|payload| + 10))
  {
    var e := Encode(id, kind, payload);
    assert e[0..4] == IntBytes(|payload| + 10);
    assert e[4..8] == IntBytes(id);
    assert e[8..12] == IntBytes(kind);
    assert e[12..|e| - 2] == payload;
    ReadWriteRoundTrip(|payload| + 10);
    ReadWriteRoundTrip(id);
    ReadWriteRoundTrip(kind);
  }

  /** The decoder with the corrected reader, widening through
      `unsigned char`. */
  function DecodeUnsigned(frame: seq<Byte>): (d: Option<Fields>)
  {
    if |frame| < 14 then None
    else Some(Fields(Accumulated(frame[0..4], 4, false), Accumulated(frame[4..8], 4, false),
                     Accumulated(frame[8..12], 4, false), frame[12..|frame| - 2]))
  }

  /** With the corrected reader, decoding an encoded frame recovers every
      field exactly. */
  lemma DecodeUnsignedEncode(id: Int32, kind: Int32, payload: seq<Byte>)
    requires |payload| + 10 < 0x8000_0000
    ensures DecodeUnsigned(Encode(id, kind, payload)) == Some(Fields(|payload| + 10, id, kind, payload))
  {
    var e := Encode(id, kind, payload);
    assert e[0..4] == IntBytes(|payload| + 10);
    assert e[4..8] == IntBytes(id);
    assert e[8..12] == IntBytes(kind);
    assert e[12..|e| - 2] == payload;
    UnsignedRoundTrip(|payload| + 10);
    UnsignedRoundTrip(id);
    UnsignedRoundTrip(kind);
  }

  /** The decoder ignores the two pad bytes: any values there decode alike. */
  lemma DecodeIgnoresPad(frame: seq<Byte>, a: Byte, b: Byte)
    requires |frame| >= 14
    ensures Decode(frame[..|frame| - 2] + [a, b]) == Decode(frame)
  {
    var g := frame[..|frame| - 2] + [a, b];
    assert g[0..4] == frame[0..4];
    assert g[4..8] == frame[4..8];
    assert g[8..12] == frame[8..12];
    assert g[12..|g| - 2] == frame[12..|frame| - 2];
  }

  /** The decoder does not compare the length field with the bytes received:
      fourteen zero bytes decode to length 0, where a frame of that size
      would carry 10. */
  lemma DecodeAcceptsWrongLength(zeros: seq<Byte>)
    requires |zeros| == 14 && forall i :: 0 <= i < 14 ==> zeros[i] == 0
    ensures Decode(zeros) == Some(Fields(0, 0, 0, []))
    ensures Decode(zeros).value.length != |zeros| - 4
  {
    ZerosRead(zeros[0..4]);
    ZerosRead(zeros[4..8]);
    ZerosRead(zeros[8..12]);
    DecodeParts(zeros, 0, 0, 0, []);
  }

  /** Four zero bytes are read as 0. */
  lemma ZerosRead(b: seq<Byte>)
    requires |b| == 4 && forall i :: 0 <= i < 4 ==> b[i] == 0
    ensures SignedRead(b) == 0
  {
    SignedReadLowBytesClear(b);
    assert IntBytes(0) == b;
    IntBytesInjective(SignedRead(b), 0);
  }

  /** A 118-byte payload has length 128, whose low byte has its top bit set,
      so the decoder reads the length of its own frame back as -128. */
  lemma LengthMisreadExample(id: Int32, kind: Int32, payload: seq<Byte>)
    requires |payload| == 118
    ensures Decode(Encode(id, kind, payload)).Some?
    ensures Decode(Encode(id, kind, payload)).value.length == -128
  {
    var e := Encode(id, kind, payload);
    assert e[0..4] == IntBytes(128);
    SignExtensionCorrupts(e[0..4]);
  }

  // ---------------------------------------------------------------------
  // Error messages

  /** The message table, indexed by error code. */
  const ERRORS: seq<string> := [
    "No Error.",
    "Undefined Error.",
    "Login Denied.",
    "Buffer size incorrect.",
    "Malformed packet recieved."
  ]

  /** The message for error code `e`. Codes above 4 are clamped to the
      "Undefined Error." message; negative codes lie outside the table. */
  function StrError(e: int): (msg: string)
    requires e >= 0
    ensures 0 <= e < |ERRORS| ==> msg == ERRORS[e]
    ensures e >= |ERRORS| ==> msg == "Undefined Error."
    ensures msg in ERRORS
  {
    if e > 4 then ERRORS[1] else ERRORS[e]
  }

  /** The five codes in the table have five distinct messages; code 1 and
      every code above the table share one. */
  lemma StrErrorDistinct(a: int, b: int)
    requires 0 <= a <= 4 && 0 <= b <= 4 && a != b
    ensures StrError(a) != StrError(b)
  {
  }
}
