/** APS acknowledged delivery (aps/aps_main.c) as a machine over whole runs: the retransmit table
    and everything its events exchange with the scheduler, the NWK layer and the buffer owner. */
module RetransSpec {
  import opened Types
  import opened ApsFc

  const ENTRIES: nat := 10
  const MAX_FRAME_ENTRIES: nat := 3
  const POOL_SIZE: nat := 16
  const NO_ADDR: u16 := 0xffff
  const NO_BUF: byte := 255

  datatype SlotState = SlotFree | NotConfirmed | NotConfirmedAcked | Confirmed

  datatype Slot = Slot(
    addr: u16, clusterid: u16, counter: byte, srcEndpoint: byte, dstEndpoint: byte,
    buf: byte, retries: nat, insecure: bool, state: SlotState)

  datatype Status = Ok | NoAck | TableFull

  /** What `done_with_this_ack` does with a slot's buffer: it frees it or confirms it upwards.
      `command` is whether the frame in the buffer was a command. */
  datatype Outcome = Outcome(buf: byte, freed: bool, command: bool, status: Status)

  /** The parsed header of a received acknowledgement. */
  datatype Ack = Ack(src: u16, counter: byte, commandFormat: bool, clusterid: u16, srcEndpoint: byte, dstEndpoint: byte)

  datatype DataReq = DataReq(dst: u16, clusterid: u16, profileid: u16, srcEndpoint: byte, dstEndpoint: byte)

  /** `alarms[i]` counts the pending timer alarms of slot i, `nwk[b]` the requests for buffer b the
      NWK layer has not confirmed, `fc[b]` is the frame-control octet in buffer b. `sent` and
      `handed` count, per buffer, how often it entered and left the APS. `passes` and `expiries`
      count, per slot, transmissions and timer expiries of its packet. `wild` counts accesses
      through the buffer reference of an empty slot, which lie outside the pool. */
  datatype Aps = Aps(
    slots: seq<Slot>, counter: byte,
    alarms: seq<nat>, nwk: seq<nat>, fc: seq<byte>,
    sent: seq<nat>, handed: seq<nat>, outcomes: seq<Outcome>,
    passes: seq<nat>, expiries: seq<nat>, wild: nat)

  datatype Event =
    | SendData(buf: byte, req: DataReq)
    | SendCommand(buf: byte, dest: u16, secure: bool)
    | SendPlain(buf: byte, fc: byte)
    | NwkConfirm(buf: byte)
    | PeerAck(ack: Ack)
    | AckTimer(slot: nat)

  predicate Live(slot: Slot) { !slot.state.SlotFree? }

  predicate IsBroadcast(addr: u16) { addr >= 0xfff0 }

  function Inc(v: seq<nat>, i: nat): (r: seq<nat>)
    ensures |r| == |v| && forall k :: 0 <= k < |v| ==> r[k] == if k == i then v[k] + 1 else v[k]
  {
    if i < |v| then v[i := v[i] + 1] else v
  }

  function Dec(v: seq<nat>, i: nat): (r: seq<nat>)
    ensures |r| == |v| && forall k :: 0 <= k < |v| ==> r[k] == if k == i && v[k] > 0 then v[k] - 1 else v[k]
  {
    if i < |v| && v[i] > 0 then v[i := v[i] - 1] else v
  }

  // ---------------------------------------------------------------- table searches

  /** The first free slot, or the table length. */
  function FindFree(slots: seq<Slot>, i: nat): (r: nat)
    requires i <= |slots|
    ensures i <= r <= |slots|
    ensures forall k :: i <= k < r ==> Live(slots[k])
    ensures r < |slots| ==> !Live(slots[r])
    decreases |slots| - i
  {
    if i == |slots| || !Live(slots[i]) then i else FindFree(slots, i + 1)
  }

  /** The first slot that refers to buffer `b`, or the table length. */
  function FindBuf(slots: seq<Slot>, b: byte, i: nat): (r: nat)
    requires i <= |slots|
    ensures i <= r <= |slots|
    ensures forall k :: i <= k < r ==> slots[k].buf != b
    ensures r < |slots| ==> slots[r].buf == b
    decreases |slots| - i
  {
    if i == |slots| || slots[i].buf == b then i else FindBuf(slots, b, i + 1)
  }

  predicate AckMatches(slot: Slot, a: Ack) {
    && slot.addr == a.src
    && slot.counter == a.counter
    && (a.commandFormat
        || (slot.clusterid == a.clusterid && slot.srcEndpoint == a.dstEndpoint && slot.dstEndpoint == a.srcEndpoint))
  }

  /** The first slot an acknowledgement matches, or the table length. */
  function FindAck(slots: seq<Slot>, a: Ack, i: nat): (r: nat)
    requires i <= |slots|
    ensures i <= r <= |slots|
    ensures forall k :: i <= k < r ==> !AckMatches(slots[k], a)
    ensures r < |slots| ==> AckMatches(slots[r], a)
    decreases |slots| - i
  {
    if i == |slots| || AckMatches(slots[i], a) then i else FindAck(slots, a, i + 1)
  }

  // ---------------------------------------------------------------- the events

  ghost predicate Shape(s: Aps) {
    && |s.slots| == |s.alarms| == |s.passes| == |s.expiries| == ENTRIES
    && |s.nwk| == |s.fc| == |s.sent| == |s.handed| == POOL_SIZE
  }

  /** The buffer leaves the APS. */
  function Return(s: Aps, b: byte): Aps {
    s.(handed := Inc(s.handed, b), wild := if b < |s.handed| then s.wild else s.wild + 1)
  }

  /** `done_with_this_ack`. */
  function Done(s: Aps, i: nat, free: bool, status: Status): Aps
    requires i < |s.slots|
  {
    var b := s.slots[i].buf;
    var command := b < |s.fc| && AckFormat(s.fc[b]);
    Return(s, b).(
      outcomes := s.outcomes + [Outcome(b, free, command, status)],
      slots := s.slots[i := s.slots[i].(state := SlotFree, addr := NO_ADDR, buf := NO_BUF)],
      alarms := Dec(s.alarms, i))
  }

  /** The caller hands a buffer with frame `fc` to the APS. */
  function Accept(s: Aps, b: byte, fc: byte): Aps {
    s.(sent := Inc(s.sent, b), fc := if b < |s.fc| then s.fc[b := fc] else s.fc)
  }

  /** A slot is filled for buffer `b`; its packet has not been transmitted yet. */
  function Fill(s: Aps, i: nat, slot: Slot): Aps
    requires i < |s.slots| && i < |s.passes| && i < |s.expiries|
  {
    s.(slots := s.slots[i := slot], passes := s.passes[i := 0], expiries := s.expiries[i := 0])
  }

  function StartAlarm(s: Aps, i: nat): Aps { s.(alarms := Inc(s.alarms, i)) }

  function PassDown(s: Aps, b: byte): Aps { s.(nwk := Inc(s.nwk, b)) }

  /** `save_ack_data`: the first free slot, if any, is filled. */
  function SaveStep(s: Aps, b: byte, req: DataReq): Aps
    requires Shape(s)
  {
    var i := FindFree(s.slots, 0);
    if i == ENTRIES then s
    else Fill(s, i, Slot(req.dst, req.clusterid, (s.counter - 1) % 256, req.srcEndpoint, req.dstEndpoint,
                         b, MAX_FRAME_ENTRIES, false, NotConfirmed))
  }

  /** What the sender does next. The full-table test asks for the last index, so a find there is
      reported as full, and a full table is reported as success with slot reference 0. */
  function SendSaved(s: Aps, b: byte, i: nat): Aps {
    if i == ENTRIES - 1 then Return(s, b)
    else if i == ENTRIES then PassDown(StartAlarm(s, 0), b)
    else PassDown(StartAlarm(s, i), b).(passes := Inc(s.passes, i))
  }

  /** `zb_apsde_data_request` for an acknowledged unicast frame. */
  function SendDataStep(s: Aps, b: byte, req: DataReq): Aps
    requires Shape(s)
  {
    var s1 := Accept(s, b, DataFc(DELIVERY_UNICAST, true)).(counter := (s.counter + 1) % 256);
    SendSaved(SaveStep(s1, b, req), b, FindFree(s.slots, 0))
  }

  /** The slot of an acknowledged command, with its first transmission counted. */
  function SaveCommand(s: Aps, b: byte, dest: u16, secure: bool): Aps
    requires Shape(s)
  {
    var i := FindFree(s.slots, 0);
    if IsBroadcast(dest) || i == ENTRIES then s
    else
      var slot := s.slots[i].(addr := dest, counter := s.counter, buf := b, insecure := !secure,
                              retries := MAX_FRAME_ENTRIES, state := NotConfirmed);
      StartAlarm(Fill(s, i, slot).(passes := s.passes[i := 1]), i)
  }

  /** `zb_aps_send_command`. */
  function SendCommandStep(s: Aps, b: byte, dest: u16, secure: bool): Aps
    requires Shape(s)
  {
    var s1 := SaveCommand(s, b, dest, secure);
    PassDown(Accept(s1, b, CommandFc(!IsBroadcast(dest))).(counter := (s.counter + 1) % 256), b)
  }

  /** `zb_nlde_data_confirm`. */
  function NwkConfirmStep(s: Aps, b: byte): Aps
    requires Shape(s) && b < POOL_SIZE
  {
    var s1 := s.(nwk := Dec(s.nwk, b));
    var i := FindBuf(s.slots, b, 0);
    if FrameType(s.fc[b]) == FRAME_ACK || !AckRequest(s.fc[b]) || i == ENTRIES then Return(s1, b)
    else if s.slots[i].state == NotConfirmedAcked then Done(s1, i, AckFormat(s.fc[b]), Ok)
    else s1.(slots := s.slots[i := s.slots[i].(state := Confirmed)])
  }

  /** `aps_ack_frame_handle`. */
  function PeerAckStep(s: Aps, a: Ack): Aps
    requires Shape(s)
  {
    var i := FindAck(s.slots, a, 0);
    if i == ENTRIES then s
    else if s.slots[i].state == NotConfirmed then
      s.(slots := s.slots[i := s.slots[i].(state := NotConfirmedAcked)])
    else Done(s, i, a.commandFormat, Ok)
  }

  /** What every expiry does: the alarm is gone, the frame-control octet in the slot's buffer is read, and
      a retry is used up. */
  function Expired(s: Aps, i: nat): (s': Aps)
    requires Shape(s) && i < ENTRIES
    ensures Shape(s')
  {
    var slot := s.slots[i];
    s.(alarms := Dec(s.alarms, i), expiries := Inc(s.expiries, i),
       wild := if slot.buf < POOL_SIZE then s.wild else s.wild + 1,
       slots := s.slots[i := slot.(retries := if slot.retries > 0 then slot.retries - 1 else 0)])
  }

  /** `zb_aps_ack_timer_cb`: its alarm has just been taken off the queue. */
  function AckTimerStep(s: Aps, i: nat): Aps
    requires Shape(s) && i < ENTRIES
  {
    var s1 := Expired(s, i);
    var slot := s1.slots[i];
    if slot.retries == 0 && slot.state == Confirmed then
      Done(s1, i, slot.buf < POOL_SIZE && AckFormat(s.fc[slot.buf]), NoAck)
    else if slot.state == Confirmed then
      PassDown(StartAlarm(s1, i), slot.buf).(
        slots := s1.slots[i := slot.(state := NotConfirmed)],
        passes := Inc(s.passes, i))
    else StartAlarm(s1, i)
  }

  /** Whether the buffer is in the APS's hands: in a slot, or with the NWK layer on its behalf. */
  ghost predicate InSlot(s: Aps, b: byte) { exists i :: 0 <= i < |s.slots| && Live(s.slots[i]) && s.slots[i].buf == b }

  ghost function Held(s: Aps, b: byte): nat
    requires Shape(s) && b < POOL_SIZE
  {
    if InSlot(s, b) then 1 else s.nwk[b]
  }

  /** What the environment may do: a caller sends only buffers it owns, which are those it got back as
      often as it gave them away, rightly or not; NWK confirms only what it holds, only pending alarms fire, and an acknowledged frame is not sent as a plain one. */
  ghost predicate Enabled(s: Aps, e: Event)
    requires Shape(s)
  {
    match e
    case SendData(b, _) => b < POOL_SIZE && s.sent[b] <= s.handed[b]
    case SendCommand(b, _, _) => b < POOL_SIZE && s.sent[b] <= s.handed[b]
    case SendPlain(b, fc) => b < POOL_SIZE && s.sent[b] <= s.handed[b] && (FrameType(fc) == FRAME_ACK || !AckRequest(fc))
    case NwkConfirm(b) => b < POOL_SIZE && s.nwk[b] > 0
    case PeerAck(_) => true
    case AckTimer(i) => i < ENTRIES && s.alarms[i] > 0
  }

  ghost function Step(s: Aps, e: Event): (s': Aps)
    requires Shape(s) && Enabled(s, e)
    ensures Shape(s')
  {
    match e
    case SendData(b, req) => SendDataStep(s, b, req)
    case SendCommand(b, dest, secure) => SendCommandStep(s, b, dest, secure)
    case SendPlain(b, fc) => PassDown(Accept(s, b, fc), b)
    case NwkConfirm(b) => NwkConfirmStep(s, b)
    case PeerAck(a) => PeerAckStep(s, a)
    case AckTimer(i) => AckTimerStep(s, i)
  }
}
