/** The APS frame-control octet (include/zb_aps.h). */
module ApsFc {
  import opened Types

  const FRAME_DATA: byte := 0
  const FRAME_COMMAND: byte := 1
  const FRAME_ACK: byte := 2

  const DELIVERY_UNICAST: byte := 0
  const DELIVERY_GROUP: byte := 3

  function FrameType(fc: byte): byte { fc % 4 }
  function DeliveryMode(fc: byte): byte { fc / 4 % 4 }
  predicate AckFormat(fc: byte) { fc / 16 % 2 == 1 }
  predicate AckRequest(fc: byte) { fc / 64 % 2 == 1 }

  /** The octet of a command frame: type, acknowledgement format, and the request bit. */
  function CommandFc(needAck: bool): byte { if needAck then 0x51 else 0x11 }

  /** The octet of an unsecured data frame. */
  function DataFc(delivery: byte, needAck: bool): byte
    requires delivery < 4
  {
    4 * delivery + (if needAck then 0x40 else 0)
  }

  /** The octet of an acknowledgement for a frame with octet `fc`. */
  function AckFc(fc: byte): byte {
    if FrameType(fc) != FRAME_COMMAND then 0x02 else 0x12
  }

  /** Header octets, without an auxiliary security header. */
  function HdrSize(fc: byte): nat {
    2 + if FrameType(fc) == FRAME_COMMAND then 0
        else 1 + (if DeliveryMode(fc) == DELIVERY_GROUP then 1 else 0) + 2 + 2 + 1
  }

  /** Where the fields are in the octet: two bits of type, two of delivery mode, and a bit each for the
      acknowledgement format, security, the acknowledgement request and the extended header. */
  lemma FcFields(kind: nat, delivery: nat, format: nat, security: nat, request: nat, ext: nat)
    requires kind < 4 && delivery < 4 && format < 2 && security < 2 && request < 2 && ext < 2
    ensures var fc := kind + 4 * delivery + 16 * format + 32 * security + 64 * request + 128 * ext;
            FrameType(fc) == kind && DeliveryMode(fc) == delivery
            && (AckFormat(fc) <==> format == 1) && (AckRequest(fc) <==> request == 1)
  {
    var fc := kind + 4 * delivery + 16 * format + 32 * security + 64 * request + 128 * ext;
    assert fc / 4 == delivery + 4 * format + 8 * security + 16 * request + 32 * ext;
    assert fc / 16 == format + 2 * security + 4 * request + 8 * ext;
    assert fc / 64 == request + 2 * ext;
  }

  /** The octets the stack builds. */
  lemma BuiltFields(delivery: byte, needAck: bool, fc: byte)
    requires delivery < 4
    ensures var d := DataFc(delivery, needAck);
            FrameType(d) == FRAME_DATA && DeliveryMode(d) == delivery && !AckFormat(d) && (AckRequest(d) <==> needAck)
    ensures var c := CommandFc(needAck);
            FrameType(c) == FRAME_COMMAND && DeliveryMode(c) == DELIVERY_UNICAST && AckFormat(c) && (AckRequest(c) <==> needAck)
    ensures var a := AckFc(fc);
            FrameType(a) == FRAME_ACK && DeliveryMode(a) == DELIVERY_UNICAST && !AckRequest(a)
            && (AckFormat(a) <==> FrameType(fc) == FRAME_COMMAND)
  {
  }
}
