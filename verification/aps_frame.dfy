/** APS headers on the wire (aps/aps_main.c): what is written, what is read back, and why an
    acknowledgement finds the packet it acknowledges. */
module ApsFrame {
  import opened Types
  import opened ApsFc
  import opened RetransSpec
  import opened PacketBuffers

  function Low(x: u16): byte { x % 256 }
  function High(x: u16): byte { x / 256 }
  function Le16(x: u16): (r: seq<byte>) { [Low(x), High(x)] }
  function U16(low: byte, high: byte): u16 { low + 256 * high }

  // ---------------------------------------------------------------- the header as a value

  /** The fields `aps_data_hdr_fill_datareq` takes from a request. */
  datatype HdrReq = HdrReq(group: u16, dstEndpoint: byte, clusterid: u16, profileid: u16, srcEndpoint: byte)

  /** A parsed header. Fields the parser leaves unset are None. */
  datatype ApsHdr = ApsHdr(
    fc: byte, dstEndpoint: Option<byte>, group: Option<u16>,
    clusterid: Option<u16>, profileid: Option<u16>, srcEndpoint: byte, counter: byte)

  predicate IsGroup(fc: byte) { DeliveryMode(fc) == DELIVERY_GROUP }

  function EncodeData(fc: byte, req: HdrReq, counter: byte): seq<byte> {
    [fc] + (if IsGroup(fc) then Le16(req.group) else [req.dstEndpoint])
    + Le16(req.clusterid) + Le16(req.profileid) + [req.srcEndpoint, counter]
  }

  function EncodeCommand(fc: byte, counter: byte, command: byte): seq<byte> { [fc, counter, command] }

  /** Octets the parser reads: it looks at the acknowledgement-format bit. */
  function ParsedSize(fc: byte): nat {
    if AckFormat(fc) then 2 else if IsGroup(fc) then 9 else 8
  }

  function Parse(p: seq<byte>): ApsHdr
    requires p != [] && ParsedSize(p[0]) <= |p|
  {
    var fc := p[0];
    if AckFormat(fc) then ApsHdr(fc, None, None, None, None, 0xff, p[1])
    else if IsGroup(fc) then
      ApsHdr(fc, None, Some(U16(p[1], p[2])), Some(U16(p[3], p[4])), Some(U16(p[5], p[6])), p[7], p[8])
    else
      ApsHdr(fc, Some(p[1]), None, Some(U16(p[2], p[3])), Some(U16(p[4], p[5])), p[6], p[7])
  }

  /** Whether a received frame gives the acknowledgement builder everything it copies. */
  predicate Acknowledgeable(h: ApsHdr) {
    FrameType(h.fc) == FRAME_COMMAND || (h.dstEndpoint.Some? && h.clusterid.Some? && h.profileid.Some?)
  }

  /** The acknowledgement for a received header, with the endpoints swapped. */
  function EncodeAck(h: ApsHdr): seq<byte>
    requires Acknowledgeable(h)
  {
    var fc := AckFc(h.fc);
    if AckFormat(fc) then [fc, h.counter]
    else [fc, h.srcEndpoint] + Le16(h.clusterid.value) + Le16(h.profileid.value) + [h.dstEndpoint.value, h.counter]
  }

  /** What the retransmit table is asked with when `h` arrives from `src`. */
  function ReceivedAck(h: ApsHdr, src: u16): Ack
  {
    Ack(src, h.counter, AckFormat(h.fc),
        if h.clusterid.Some? then h.clusterid.value else 0, h.srcEndpoint,
        if h.dstEndpoint.Some? then h.dstEndpoint.value else 0)
  }

  // ---------------------------------------------------------------- the octets on the wire

  /** Sixteen-bit fields go out low octet first. */
  lemma DataOnTheWire(fc: byte, req: HdrReq, counter: byte)
    ensures EncodeData(fc, req, counter)
            == [fc]
               + (if DeliveryMode(fc) == 3 then [req.group % 256, req.group / 256] else [req.dstEndpoint])
               + [req.clusterid % 256, req.clusterid / 256, req.profileid % 256, req.profileid / 256,
                  req.srcEndpoint, counter]
  {
  }

  lemma AckOnTheWire(h: ApsHdr)
    requires Acknowledgeable(h)
    ensures FrameType(h.fc) == FRAME_COMMAND ==> EncodeAck(h)[1..] == [h.counter]
    ensures FrameType(h.fc) != FRAME_COMMAND ==>
              EncodeAck(h)[1..]
              == [h.srcEndpoint, h.clusterid.value % 256, h.clusterid.value / 256,
                  h.profileid.value % 256, h.profileid.value / 256, h.dstEndpoint.value, h.counter]
  {
    BuiltFields(0, false, h.fc);
  }

  /** The acknowledgement of any frame, as its receiver parses it: an ACK, asking for none itself, in the
      format of the frame's kind, with the frame's counter, cluster and profile and its endpoints swapped. */
  lemma AckHeader(h: ApsHdr)
    requires Acknowledgeable(h)
    ensures var p, command := EncodeAck(h), FrameType(h.fc) == FRAME_COMMAND;
            && p != [] && ParsedSize(p[0]) == |p|
            && var a := Parse(p);
               && a.fc == p[0] && FrameType(a.fc) == FRAME_ACK && DeliveryMode(a.fc) == DELIVERY_UNICAST && !AckRequest(a.fc)
               && (AckFormat(a.fc) <==> command) && a.counter == h.counter
               && (!command ==>
                     && a.dstEndpoint == Some(h.srcEndpoint) && a.srcEndpoint == h.dstEndpoint.value
                     && a.clusterid == h.clusterid && a.profileid == h.profileid)
  {
    BuiltFields(0, false, h.fc);
    if FrameType(h.fc) != FRAME_COMMAND {
      Le16RoundTrip(h.clusterid.value);
      Le16RoundTrip(h.profileid.value);
    }
  }

  // ---------------------------------------------------------------- round trips

  lemma Le16RoundTrip(x: u16)
    ensures U16(Low(x), High(x)) == x
  {
  }

  /** Unsecured data octets have the acknowledgement-format bit clear and type DATA. */
  predicate IsDataFc(fc: byte) { FrameType(fc) == FRAME_DATA && !AckFormat(fc) }

  /** Parsing a data frame recovers every field, and cutting the header recovers the payload. */
  lemma DataRoundTrip(fc: byte, req: HdrReq, counter: byte, payload: seq<byte>)
    requires IsDataFc(fc)
    ensures var p := EncodeData(fc, req, counter) + payload;
            && ParsedSize(fc) == HdrSize(fc) <= |p| && p[0] == fc
            && p[HdrSize(fc)..] == payload
            && Parse(p) == ApsHdr(fc, if IsGroup(fc) then None else Some(req.dstEndpoint),
                                  if IsGroup(fc) then Some(req.group) else None,
                                  Some(req.clusterid), Some(req.profileid), req.srcEndpoint, counter)
  {
    Le16RoundTrip(req.group);
    Le16RoundTrip(req.clusterid);
    Le16RoundTrip(req.profileid);
  }

  /** The acknowledgement the peer `dst` sends for a unicast data frame, as our parser reads it. */
  function DataAck(req: HdrReq, dst: u16, counter: byte, payload: seq<byte>): Ack {
    ReceivedAck(Parse(EncodeAck(DataReceived(req, counter, payload))), dst)
  }

  /** What the peer reads from a unicast data frame that asks for an acknowledgement. */
  function DataReceived(req: HdrReq, counter: byte, payload: seq<byte>): (h: ApsHdr)
    ensures Acknowledgeable(h)
  {
    DataRoundTrip(DataFc(DELIVERY_UNICAST, true), req, counter, payload);
    Parse(EncodeData(DataFc(DELIVERY_UNICAST, true), req, counter) + payload)
  }

  /** A unicast data frame, parsed by the peer, acknowledged, and the acknowledgement parsed here,
      matches exactly the retransmit entries with this destination, counter, cluster and endpoints. */
  lemma DataAckMatches(req: HdrReq, dst: u16, counter: byte, payload: seq<byte>, slot: Slot)
    ensures AckMatches(slot, DataAck(req, dst, counter, payload)) <==>
              && slot.addr == dst && slot.counter == counter && slot.clusterid == req.clusterid
              && slot.srcEndpoint == req.srcEndpoint && slot.dstEndpoint == req.dstEndpoint
    ensures !DataAck(req, dst, counter, payload).commandFormat
    ensures AckRequest(DataReceived(req, counter, payload).fc)
    ensures var octet := EncodeAck(DataReceived(req, counter, payload))[0];
            FrameType(octet) == FRAME_ACK && !AckRequest(octet) && !AckFormat(octet)
  {
    var fc := DataFc(DELIVERY_UNICAST, true);
    DataRoundTrip(fc, req, counter, payload);
    var received := Parse(EncodeData(fc, req, counter) + payload);
    var back := HdrReq(0, req.srcEndpoint, req.clusterid, req.profileid, req.dstEndpoint);
    assert EncodeAck(received) == EncodeData(0x02, back, counter);
    Le16RoundTrip(req.clusterid);
  }

  /** The first slot an acknowledgement matches, given one that it matches. */
  lemma {:induction false} FirstMatch(slots: seq<Slot>, a: Ack, i: nat, k: nat)
    requires i <= k < |slots| && AckMatches(slots[k], a)
    ensures FindAck(slots, a, i) <= k
    ensures FindAck(slots, a, i) == k <==> forall j :: i <= j < k ==> !AckMatches(slots[j], a)
    decreases k - i
  {
    if i < k && !AckMatches(slots[i], a) { FirstMatch(slots, a, i + 1, k); }
  }

  /** Both slots wait for an acknowledgement of a data frame with the same address, counter, cluster
      and endpoints. */
  predicate Alike(s: Slot, t: Slot) {
    && s.addr == t.addr && s.counter == t.counter && s.clusterid == t.clusterid
    && s.srcEndpoint == t.srcEndpoint && s.dstEndpoint == t.dstEndpoint
  }

  /** End to end, on the retransmit machine: after a data frame has been sent, the acknowledgement the
      peer builds for it finds the slot just filled, for every counter value, unless an earlier slot
      is alike in all five fields. */
  lemma DataAckFindsEntry(s: Aps, b: byte, req: DataReq, group: u16, payload: seq<byte>)
    requires Shape(s) && FindFree(s.slots, 0) < ENTRIES
    ensures var i, slots := FindFree(s.slots, 0), SendDataStep(s, b, req).slots;
            var hdr := HdrReq(group, req.dstEndpoint, req.clusterid, req.profileid, req.srcEndpoint);
            var found := FindAck(slots, DataAck(hdr, req.dst, s.counter, payload), 0);
            && found <= i && Alike(slots[found], slots[i])
            && (found == i <==> forall j :: 0 <= j < i ==> !Alike(slots[j], slots[i]))
  {
    var i, slots := FindFree(s.slots, 0), SendDataStep(s, b, req).slots;
    var hdr := HdrReq(group, req.dstEndpoint, req.clusterid, req.profileid, req.srcEndpoint);
    var a := DataAck(hdr, req.dst, s.counter, payload);
    SavedFields(s, b, req);
    forall j | 0 <= j <= i ensures AckMatches(slots[j], a) <==> Alike(slots[j], slots[i]) {
      DataAckMatches(hdr, req.dst, s.counter, payload, slots[j]);
    }
    FirstAlike(slots, a, i);
  }

  /** What `save_ack_data` writes is what the header carried: the counter is the one before the
      increment, modulo 256. */
  lemma SavedFields(s: Aps, b: byte, req: DataReq)
    requires Shape(s) && FindFree(s.slots, 0) < ENTRIES
    ensures var slots := SendDataStep(s, b, req).slots;
            && |slots| == ENTRIES
            && var slot := slots[FindFree(s.slots, 0)];
               && slot.addr == req.dst && slot.counter == s.counter && slot.clusterid == req.clusterid
               && slot.srcEndpoint == req.srcEndpoint && slot.dstEndpoint == req.dstEndpoint
  {
  }

  lemma FirstAlike(slots: seq<Slot>, a: Ack, i: nat)
    requires i < |slots| && forall j :: 0 <= j <= i ==> (AckMatches(slots[j], a) <==> Alike(slots[j], slots[i]))
    ensures FindAck(slots, a, 0) <= i && Alike(slots[FindAck(slots, a, 0)], slots[i])
    ensures FindAck(slots, a, 0) == i <==> forall j :: 0 <= j < i ==> !Alike(slots[j], slots[i])
  {
    FirstMatch(slots, a, 0, i);
  }

  /** The acknowledgement the peer sends for a command frame, as our parser reads it. */
  function CommandAck(dst: u16, counter: byte, command: byte, payload: seq<byte>): Ack {
    ReceivedAck(Parse(EncodeAck(CommandReceived(counter, command, payload))), dst)
  }

  /** What the peer reads from a command frame that asks for an acknowledgement. */
  function CommandReceived(counter: byte, command: byte, payload: seq<byte>): (h: ApsHdr)
    ensures Acknowledgeable(h)
  {
    Parse(EncodeCommand(CommandFc(true), counter, command) + payload)
  }

  lemma CommandAckMatches(dst: u16, counter: byte, command: byte, payload: seq<byte>, slot: Slot)
    ensures AckMatches(slot, CommandAck(dst, counter, command, payload)) <==>
              slot.addr == dst && slot.counter == counter
    ensures CommandAck(dst, counter, command, payload).commandFormat
    ensures AckRequest(CommandReceived(counter, command, payload).fc)
    ensures var octet := EncodeAck(CommandReceived(counter, command, payload))[0];
            FrameType(octet) == FRAME_ACK && !AckRequest(octet) && AckFormat(octet)
  {
    var frame := EncodeCommand(CommandFc(true), counter, command) + payload;
    assert Parse(frame) == ApsHdr(0x51, None, None, None, None, 0xff, counter);
    assert EncodeAck(Parse(frame)) == [0x12, counter];
    assert Parse([0x12, counter]) == ApsHdr(0x12, None, None, None, None, 0xff, counter);
  }

  /** The same for commands: the answer, in command format, finds the slot just filled unless an
      earlier slot has the same address and counter. */
  lemma CommandAckFindsEntry(s: Aps, b: byte, dest: u16, secure: bool, command: byte, payload: seq<byte>)
    requires Shape(s) && FindFree(s.slots, 0) < ENTRIES && !IsBroadcast(dest)
    ensures var i, slots := FindFree(s.slots, 0), SendCommandStep(s, b, dest, secure).slots;
            var a := CommandAck(dest, s.counter, command, payload);
            && a.commandFormat && FindAck(slots, a, 0) <= i
            && (FindAck(slots, a, 0) == i <==>
                  forall j :: 0 <= j < i ==> !(slots[j].addr == dest && slots[j].counter == s.counter))
  {
    var i, slots := FindFree(s.slots, 0), SendCommandStep(s, b, dest, secure).slots;
    var a := CommandAck(dest, s.counter, command, payload);
    forall j | 0 <= j <= i ensures AckMatches(slots[j], a) <==> slots[j].addr == dest && slots[j].counter == s.counter {
      CommandAckMatches(dest, s.counter, command, payload, slots[j]);
    }
    CommandAckMatches(dest, s.counter, command, payload, slots[i]);
    FirstMatch(slots, a, 0, i);
  }

  // ---------------------------------------------------------------- the header in the buffer

  const REQ_SIZE: nat := 18

  /** The request structure at the end of a packet buffer: an 8-octet address union, profile,
      cluster, the two endpoints, and four more octets the header does not use. */
  function ReqAt(b: seq<byte>): HdrReq
    requires |b| == IO_BUF_SIZE
  {
    var r := IO_BUF_SIZE - REQ_SIZE;
    HdrReq(U16(b[r], b[r + 1]), b[r + 12], U16(b[r + 10], b[r + 11]), U16(b[r + 8], b[r + 9]), b[r + 13])
  }

  function DataHdrSize(fc: byte): nat { if IsGroup(fc) then 9 else 8 }

  /** The header that results when the request is read after the payload has been moved. */
  function WrittenHdr(b: seq<byte>, offset: nat, len: nat, fc: byte, counter: byte): seq<byte>
    requires |b| == IO_BUF_SIZE && offset + len + REQ_SIZE <= IO_BUF_SIZE
  {
    var size := DataHdrSize(fc);
    EncodeData(fc, ReqAt(if offset < size then Moved(b, offset, len, size) else b), counter)
  }

  /** The payload move runs into the request only for group frames close to the front and nearly as
      long as the space before the request. */
  predicate ReqSafe(offset: nat, len: nat, fc: byte) { IsGroup(fc) && offset < 9 ==> len <= 121 }

  lemma WrittenHdrWhenSafe(b: seq<byte>, offset: nat, len: nat, fc: byte, counter: byte)
    requires |b| == IO_BUF_SIZE && offset + len + REQ_SIZE <= IO_BUF_SIZE
    requires ReqSafe(offset, len, fc)
    ensures WrittenHdr(b, offset, len, fc, counter) == EncodeData(fc, ReqAt(b), counter)
  {
  }

  ghost predicate AlwaysWrites(offset: nat, len: nat, fc: byte, counter: byte)
    requires offset + len + REQ_SIZE <= IO_BUF_SIZE
  {
    forall b: seq<byte> | |b| == IO_BUF_SIZE ::
      WrittenHdr(b, offset, len, fc, counter) == EncodeData(fc, ReqAt(b), counter)
  }

  /** The header carries the caller's request, whatever the buffer holds, exactly in the safe case:
      always for unicast frames, and for group frames unless the payload runs into the request. */
  lemma WrittenHdrExact(offset: nat, len: nat, fc: byte, counter: byte)
    requires offset + len + REQ_SIZE <= IO_BUF_SIZE
    ensures AlwaysWrites(offset, len, fc, counter) <==> ReqSafe(offset, len, fc)
  {
    if ReqSafe(offset, len, fc) {
      forall b: seq<byte> | |b| == IO_BUF_SIZE
        ensures WrittenHdr(b, offset, len, fc, counter) == EncodeData(fc, ReqAt(b), counter)
      {
        WrittenHdrWhenSafe(b, offset, len, fc, counter);
      }
    } else {
      var b := ReqOverrun(offset, len, fc, counter);
    }
  }

  /** A buffer in which the moved payload overwrites the group address before it is read. */
  lemma ReqOverrun(offset: nat, len: nat, fc: byte, counter: byte) returns (b: seq<byte>)
    requires offset + len + REQ_SIZE <= IO_BUF_SIZE && !ReqSafe(offset, len, fc)
    ensures |b| == IO_BUF_SIZE
    ensures WrittenHdr(b, offset, len, fc, counter) != EncodeData(fc, ReqAt(b), counter)
  {
    b := seq(IO_BUF_SIZE, k => if k == offset + 121 then 1 else 0);
    var moved := Moved(b, offset, len, 9);
    MovedAt(b, offset, len, 9, 121);
    assert moved[130] == 1 && b[130] == 0;
    GroupOctet(fc, ReqAt(moved), counter);
    GroupOctet(fc, ReqAt(b), counter);
  }

  lemma MovedAt(b: seq<byte>, from: nat, len: nat, to: nat, k: nat)
    requires from + len <= |b| && to + len <= |b| && k < len
    ensures Moved(b, from, len, to)[to + k] == b[from + k]
  {
    assert Moved(b, from, len, to)[to..to + len][k] == b[from..from + len][k];
  }

  lemma GroupOctet(fc: byte, req: HdrReq, counter: byte)
    requires IsGroup(fc)
    ensures EncodeData(fc, req, counter)[1] == Low(req.group)
  {
  }

  /** `b` with `data` written at `p`. */
  function Overwrite(b: seq<byte>, p: nat, data: seq<byte>): (r: seq<byte>)
    requires p + |data| <= |b|
    ensures |r| == |b|
  {
    b[..p] + data + b[p + |data|..]
  }

  /** The window from `p` on, after a write at its front. */
  lemma OverwriteWindow(b: seq<byte>, p: nat, data: seq<byte>, end: nat)
    requires p + |data| <= end <= |b|
    ensures Overwrite(b, p, data)[p..end] == data + b[p + |data|..end]
  {
  }

  /** Writing before the request leaves it alone. */
  lemma ReqKept(b: seq<byte>, p: nat, data: seq<byte>)
    requires |b| == IO_BUF_SIZE && p + |data| + REQ_SIZE <= IO_BUF_SIZE
    ensures ReqAt(Overwrite(b, p, data)) == ReqAt(b)
  {
  }

  /** One write through the moving header pointer, before the request: from `p - |done|` on, the
      buffer `base` now holds `done + data`. */
  method Put(buf: array<byte>, p: nat, data: seq<byte>, ghost base: seq<byte>, ghost done: seq<byte>)
    returns (next: nat)
    requires |base| == buf.Length == IO_BUF_SIZE && |done| <= p && p + |data| + REQ_SIZE <= IO_BUF_SIZE
    requires buf[..] == Overwrite(base, p - |done|, done)
    modifies buf
    ensures next == p + |data|
    ensures buf[..] == Overwrite(base, p - |done|, done + data) && ReqAt(buf[..]) == ReqAt(base)
  {
    forall k | 0 <= k < |data| { buf[p + k] := data[k]; }
    next := p + |data|;
    assert buf[..] == Overwrite(base, p - |done|, done + data);
    ReqKept(base, p - |done|, done + data);
  }

  /** The writes common to both addressing modes: cluster, profile, source endpoint, counter. */
  method PutRest(buf: array<byte>, start: nat, counter: byte, ghost base: seq<byte>, ghost done: seq<byte>)
    requires |base| == buf.Length == IO_BUF_SIZE && |done| <= start && start + 6 + REQ_SIZE <= IO_BUF_SIZE
    requires buf[..] == Overwrite(base, start - |done|, done) && ReqAt(buf[..]) == ReqAt(base)
    modifies buf
    ensures var req := ReqAt(base);
            buf[..] == Overwrite(base, start - |done|,
                                 done + Le16(req.clusterid) + Le16(req.profileid) + [req.srcEndpoint, counter])
  {
    var cluster := Le16(ReqAt(buf[..]).clusterid);
    var p := Put(buf, start, cluster, base, done);
    var profile := Le16(ReqAt(buf[..]).profileid);
    p := Put(buf, p, profile, base, done + cluster);
    p := Put(buf, p, [ReqAt(buf[..]).srcEndpoint, counter], base, done + cluster + profile);
  }

  lemma DataParts(fc: byte, req: HdrReq, counter: byte)
    ensures EncodeData(fc, req, counter)
            == Front(fc, req) + Le16(req.clusterid) + Le16(req.profileid) + [req.srcEndpoint, counter]
    ensures |EncodeData(fc, req, counter)| == DataHdrSize(fc)
  {
  }

  /** The pointer writes of the header, each reading its request field from the buffer. */
  method WriteHdr(buf: array<byte>, start: nat, fc: byte, counter: byte)
    requires buf.Length == IO_BUF_SIZE && start + DataHdrSize(fc) + REQ_SIZE <= IO_BUF_SIZE
    modifies buf
    ensures buf[..] == Overwrite(old(buf[..]), start, EncodeData(fc, ReqAt(old(buf[..])), counter))
  {
    ghost var base := buf[..];
    var p := PutFront(buf, start, fc);
    DataParts(fc, ReqAt(base), counter);
    PutRest(buf, p, counter, base, Front(fc, ReqAt(base)));
  }

  function Front(fc: byte, req: HdrReq): seq<byte> {
    [fc] + if IsGroup(fc) then Le16(req.group) else [req.dstEndpoint]
  }

  /** The writes up to the destination. */
  method PutFront(buf: array<byte>, start: nat, fc: byte) returns (p: nat)
    requires buf.Length == IO_BUF_SIZE && start + DataHdrSize(fc) + REQ_SIZE <= IO_BUF_SIZE
    modifies buf
    ensures var front := Front(fc, ReqAt(old(buf[..])));
            p == start + |front| && buf[..] == Overwrite(old(buf[..]), start, front)
    ensures ReqAt(buf[..]) == ReqAt(old(buf[..]))
  {
    ghost var base := buf[..];
    assert Overwrite(base, start, []) == base && [] + [fc] == [fc];
    p := Put(buf, start, [fc], base, []);
    p := PutDst(buf, p, fc, base);
  }

  /** The destination, behind the frame control octet. */
  method PutDst(buf: array<byte>, start: nat, fc: byte, ghost base: seq<byte>) returns (p: nat)
    requires |base| == buf.Length == IO_BUF_SIZE && 1 <= start && start + DataHdrSize(fc) + REQ_SIZE <= IO_BUF_SIZE + 1
    requires buf[..] == Overwrite(base, start - 1, [fc]) && ReqAt(buf[..]) == ReqAt(base)
    modifies buf
    ensures var front := Front(fc, ReqAt(base));
            p == start - 1 + |front| && buf[..] == Overwrite(base, start - 1, front)
    ensures ReqAt(buf[..]) == ReqAt(base)
  {
    var req := ReqAt(buf[..]);
    if IsGroup(fc) {
      p := Put(buf, start, Le16(req.group), base, [fc]);
    } else {
      p := Put(buf, start, [req.dstEndpoint], base, [fc]);
    }
  }

  /** `aps_data_hdr_fill_datareq` on a buffer whose request is at its end. */
  method FillDataHdr(packet: PacketBuffer, fc: byte, counter: byte) returns (next: byte)
    requires packet.Valid() && packet.offset + packet.len + REQ_SIZE <= IO_BUF_SIZE
    modifies packet, packet.buf
    ensures packet.Valid() && next == (counter + 1) % 256
    ensures packet.Payload() == WrittenHdr(old(packet.buf[..]), old(packet.offset), old(packet.len), fc, counter) + old(packet.Payload())
  {
    packet.AllocLeft(8 + if IsGroup(fc) then 1 else 0);
    FillWindow(packet, fc, counter);
    next := (counter + 1) % 256;
  }

  /** The part of it behind the allocation: the header replaces the front of the window. */
  method FillWindow(packet: PacketBuffer, fc: byte, counter: byte)
    requires packet.Valid() && DataHdrSize(fc) <= packet.len
    requires packet.offset + DataHdrSize(fc) + REQ_SIZE <= IO_BUF_SIZE
    modifies packet.buf
    ensures packet.Payload() == EncodeData(fc, ReqAt(old(packet.buf[..])), counter) + old(packet.Payload())[DataHdrSize(fc)..]
  {
    ghost var start, end, base := packet.offset, packet.offset + packet.len, packet.buf[..];
    ghost var hdr := EncodeData(fc, ReqAt(base), counter);
    WriteHdr(packet.buf, packet.offset, fc, counter);
    OverwriteWindow(base, start, hdr, end);
    assert base[start..end][|hdr|..] == base[start + |hdr|..end];
    assert packet.buf[..][start..end] == packet.Payload();
  }

  /** `zb_aps_hdr_parse` on a buffer without a NWK header. It does not look at the length: a frame
      shorter than its header is read on past its end, as far as the buffer goes. */
  method ParseHdr(packet: PacketBuffer) returns (h: ApsHdr)
    requires packet.Valid() && packet.offset < IO_BUF_SIZE
    requires packet.offset + ParsedSize(packet.buf[packet.offset]) <= IO_BUF_SIZE
    ensures h == Parse(packet.buf[packet.offset..])
    ensures packet.len > 0 && ParsedSize(packet.buf[packet.offset]) <= packet.len ==> h == Parse(packet.Payload())
  {
    var b, p := packet.buf, packet.offset;
    h := ApsHdr(b[p], None, None, None, None, 0xff, 0);
    p := p + 1;
    if !AckFormat(h.fc) {
      if !IsGroup(h.fc) {
        h := h.(dstEndpoint := Some(b[p]));
        p := p + 1;
      } else {
        h := h.(group := Some(U16(b[p], b[p + 1])));
        p := p + 2;
      }
      h := h.(clusterid := Some(U16(b[p], b[p + 1])));
      p := p + 2;
      h := h.(profileid := Some(U16(b[p], b[p + 1])));
      p := p + 2;
      h := h.(srcEndpoint := b[p]);
      p := p + 1;
    }
    h := h.(counter := b[p]);
  }

  /** `aps_ack_send_handle`: builds the acknowledgement in a buffer of its own. */
  method BuildAck(packet: PacketBuffer, h: ApsHdr)
    requires packet.Valid() && Acknowledgeable(h)
    modifies packet, packet.buf
    ensures packet.Valid() && packet.Payload() == EncodeAck(h)
  {
    var fc := AckFc(h.fc);
    packet.InitialAlloc(if FrameType(h.fc) != FRAME_COMMAND then 8 else 2);
    var b, p := packet.buf, packet.offset;
    b[p] := fc;
    p := p + 1;
    if !AckFormat(fc) {
      b[p] := h.srcEndpoint;
      b[p + 1], b[p + 2] := Low(h.clusterid.value), High(h.clusterid.value);
      b[p + 3], b[p + 4] := Low(h.profileid.value), High(h.profileid.value);
      b[p + 5] := h.dstEndpoint.value;
      p := p + 6;
    }
    b[p] := h.counter;
  }

  /** A data frame built in a buffer, parsed there and stripped of its header: every field of the
      request comes back and the payload is the caller's. */
  method SendAndReceive(packet: PacketBuffer, fc: byte, counter: byte) returns (h: ApsHdr)
    requires packet.Valid() && packet.offset + packet.len + REQ_SIZE <= IO_BUF_SIZE
    requires IsDataFc(fc) && ReqSafe(packet.offset, packet.len, fc)
    modifies packet, packet.buf
    ensures packet.Valid() && packet.Payload() == old(packet.Payload())
    ensures var req := ReqAt(old(packet.buf[..]));
            h == ApsHdr(fc, if IsGroup(fc) then None else Some(req.dstEndpoint),
                        if IsGroup(fc) then Some(req.group) else None,
                        Some(req.clusterid), Some(req.profileid), req.srcEndpoint, counter)
  {
    ghost var req, payload := ReqAt(packet.buf[..]), packet.Payload();
    WrittenHdrWhenSafe(packet.buf[..], packet.offset, packet.len, fc, counter);
    DataRoundTrip(fc, req, counter, payload);
    var _ := FillDataHdr(packet, fc, counter);
    assert packet.Payload() == EncodeData(fc, req, counter) + payload;
    h := ParseHdr(packet);
    packet.CutLeft(HdrSize(h.fc));
  }
}
