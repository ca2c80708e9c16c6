/** Declarations of the RCON client header: packet types, buffer budgets and
    the packet record shared by the encoder and the decoder. */
module RconHeader {

  /** One `char` of a packet buffer, held as its bit pattern read unsigned
      (0..255). Whether the platform's `char` is signed matters only where a
      byte is widened to an integer; the codec says so there. */
  type Byte = x: int | 0 <= x < 0x100

  /** C `int32_t`. */
  type Int32 = x: int | -0x8000_0000 <= x < 0x8000_0000

  /** C `uint32_t`. */
  type Uint32 = x: int | 0 <= x < 0x1_0000_0000

  /** Packet types on the wire. A successful login is answered with
      COMMAND_TYPE; LOGIN_FAIL is the id the server echoes on a refused login. */
  const LOGIN_TYPE: Int32 := 3
  const LOGIN_FAIL: Int32 := -1
  const COMMAND_TYPE: Int32 := 2
  const RESPONSE_TYPE: Int32 := 0

  /** Buffer budgets: the client's receive and send buffers, in bytes. */
  const RECV_PKGSIZE: nat := 4110
  const SEND_PKGSIZE: nat := 1460

  /** The packet record. The payload, a pointer and a byte count in the
      record, is a sequence here; its length plays the part of the count. */
  class Packet {
    var length: Int32
    var id: Int32
    /** The record's `type` field; `type` is a reserved word in Dafny. */
    var kind: Int32
    var payload: seq<Byte>

    /** A packet as the client initialises one before encoding it: the length
        is left at 0 for the encoder to fill in. */
    constructor (id: Int32, kind: Int32, payload: seq<Byte>)
      ensures this.length == 0
      ensures this.id == id && this.kind == kind && this.payload == payload
    {
      this.length := 0;
      this.id := id;
      this.kind := kind;
      this.payload := payload;
    }
  }
}
