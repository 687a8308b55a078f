/**
 * Fixed-width integers, the host/network byte-order conversions the server applies
 * to them, and the two message records exchanged over the datagram socket.
 *
 * Every integer field of a record is modelled by its bytes in memory, which are the
 * bytes on the wire. The server writes fields with htons/htonl and reads them with
 * ntohs/ntohl, so fields hold network (big-endian) order. The host is taken to be
 * little-endian, so each conversion reverses the bytes; on a big-endian host it would
 * leave them alone, and every property of this model that rests on the round trips
 * below would hold unchanged.
 */
module Wire {

  type byte = x: int | 0 <= x < 0x100
  type uint16 = x: int | 0 <= x < 0x1_0000
  type uint32 = x: int | 0 <= x < 0x1_0000_0000
  type int32 = x: int | -0x8000_0000 <= x < 0x8000_0000
  type uint64 = x: int | 0 <= x < 0x1_0000_0000_0000_0000

  /** A double as its 64-bit IEEE-754 pattern; floats travel in host order, unconverted. */
  type Double = uint64

  /** The C++ test `d != 0` on a double: false exactly for +0.0 and -0.0. */
  predicate IsZero(d: Double) {
    d == 0 || d == 0x8000_0000_0000_0000
  }

  // ---------------------------------------------------------------- memory words

  /** A 16-bit variable as its two bytes in memory, lower address first. */
  datatype Word16 = Word16(lo: byte, hi: byte)

  /** A 32-bit variable as its two 16-bit halves in memory, lower address first. */
  datatype Word32 = Word32(low: Word16, high: Word16)

  /** The value a little-endian host reads from a 16-bit word. */
  function Value16(w: Word16): uint16 {
    w.lo + 0x100 * w.hi
  }

  /** How a little-endian host stores a 16-bit value. */
  function Word16Of(v: uint16): Word16 {
    Word16(v % 0x100, v / 0x100)
  }

  function Value32(w: Word32): uint32 {
    Value16(w.low) + 0x1_0000 * Value16(w.high)
  }

  function Word32Of(v: uint32): Word32 {
    Word32(Word16Of(v % 0x1_0000), Word16Of(v / 0x1_0000))
  }

  /** Reverses the byte order of a word. */
  function Swap16(w: Word16): Word16 {
    Word16(w.hi, w.lo)
  }

  function Swap32(w: Word32): Word32 {
    Word32(Swap16(w.high), Swap16(w.low))
  }

  // ---------------------------------------------------------------- byte order

  /** htons(v): the field whose bytes are v most significant first. */
  function HostToNet16(v: uint16): Word16 {
    Swap16(Word16Of(v))
  }

  /** ntohs(w): the value of a field held in network order. */
  function NetToHost16(w: Word16): uint16 {
    Value16(Swap16(w))
  }

  /** htonl(v) */
  function HostToNet32(v: uint32): Word32 {
    Swap32(Word32Of(v))
  }

  /** ntohl(w) */
  function NetToHost32(w: Word32): uint32 {
    Value32(Swap32(w))
  }

  /** Network order is big-endian: read in memory order, the bytes of htonl(v) spell v. */
  lemma HostToNetIsBigEndian(v: uint32)
    ensures var w := HostToNet32(v);
      v == ((w.low.lo * 0x100 + w.low.hi) * 0x100 + w.high.lo) * 0x100 + w.high.hi
  {
  }

  lemma HostToNet16RoundTrip(v: uint16)
    ensures NetToHost16(HostToNet16(v)) == v
  {
  }

  lemma NetToHost16RoundTrip(w: Word16)
    ensures HostToNet16(NetToHost16(w)) == w
  {
  }

  lemma HostToNet32RoundTrip(v: uint32)
    ensures NetToHost32(HostToNet32(v)) == v
  {
  }

  lemma NetToHost32RoundTrip(w: Word32)
    ensures HostToNet32(NetToHost32(w)) == w
  {
  }

  // ---------------------------------------------------------------- signedness

  /** Converting a uint32_t to int: values from 2^31 up read as negative (two's complement). */
  function ToInt32(u: uint32): int32 {
    if u < 0x8000_0000 then u else u - 0x1_0000_0000
  }

  /** Converting an int to uint32_t, as htonl's parameter does: reduction modulo 2^32. */
  function FromInt32(v: int32): uint32 {
    if v >= 0 then v else v + 0x1_0000_0000
  }

  lemma Int32RoundTrip(v: int32, u: uint32)
    ensures ToInt32(FromInt32(v)) == v
    ensures FromInt32(ToInt32(u)) == u
  {
  }

  /**
   * What an int32 written with `htonl(v)` reads back as through `(int) ntohl(...)`;
   * this is the path every integer field of the assignment takes.
   */
  lemma EncodedInt32RoundTrip(v: int32)
    ensures ToInt32(NetToHost32(HostToNet32(FromInt32(v)))) == v
  {
  }

  // ---------------------------------------------------------------- records

  /**
   * calcMessage: the handshake and verdict record. `kind` is the field the protocol
   * calls `type`; `message` carries 0 in a HELLO and 1 (OK) or 2 (NOT OK) in a verdict.
   */
  datatype CalcMessage = CalcMessage(
    kind: Word16,
    message: Word32,
    protocol: Word16,
    major: Word16,
    minor: Word16)

  /**
   * calcProtocol: the assignment and result record. The integer fields are in network
   * order; the three doubles are in host order.
   */
  datatype CalcProtocol = CalcProtocol(
    kind: Word16,
    major: Word16,
    minor: Word16,
    id: Word32,
    arith: Word32,
    inValue1: Word32,
    inValue2: Word32,
    inResult: Word32,
    flValue1: Double,
    flValue2: Double,
    flResult: Double)

  /** A client endpoint: the sockaddr_storage bytes the socket reported, addrLen of them. */
  datatype Address = Address(storage: seq<byte>)
}
