/** Shared vocabulary of the SoundStream wire protocol: bytes, decoded packets,
    the Java integer bounds the scheduler relies on, and the shapes of the
    packet codec, which is not part of this model and is therefore passed
    around as a function value. */
module Wire {

  /** One octet on the wire. */
  newtype byte = x: int | 0 <= x < 256

  /** Largest and smallest values of a Java `int`. */
  const INT_MAX: int := 0x7FFF_FFFF
  const INT_MIN: int := -0x8000_0000

  /** Number of distinct Java `int` values. */
  const INT_RANGE: int := 0x1_0000_0000

  predicate IsJavaInt(x: int) {
    INT_MIN <= x <= INT_MAX
  }

  /** Java `int` arithmetic: the two's-complement value of `x` modulo 2^32. */
  function WrapInt(x: int): (r: int)
    ensures IsJavaInt(r)
    ensures IsJavaInt(x) ==> r == x
    ensures (r - x) % INT_RANGE == 0
  {
    (x - INT_MIN) % INT_RANGE + INT_MIN
  }

  /** Bytes written to the socket per call, and the size of a send packet
      (Messenger's MAX_WRITE_SIZE_BYTES, returned by getSendPacketSize). */
  const MAX_WRITE_SIZE_BYTES: nat := 4096

  datatype Option<T> = None | Some(value: T)

  /** A packet as the packet codec decodes it: the message number it belongs
      to, whether its Cancelled control code is set, and its payload. */
  datatype Packet = Packet(messageNo: int, cancelled: bool, payload: seq<byte>)

  /** The packet a sender emits to cancel message `messageNo`: Cancelled bit
      set, empty payload. */
  function CancelPacket(messageNo: int): Packet {
    Packet(messageNo, true, [])
  }

  /** The packet serializer (PacketFormat.serialize). Its byte layout is not
      part of this model. */
  type PacketEncoder = Packet -> seq<byte>

  /** Every serialized packet carries at least its header, so it is never
      empty. This is all the scheduler needs to know about the encoder. */
  ghost predicate NonEmptyFrames(encode: PacketEncoder) {
    forall p :: |encode(p)| > 0
  }
}
