/** The retransmit table of aps/aps_main.c, changed in place by its event handlers; each handler is
    one step of the machine in `RetransSpec`. */
module Retransmitter {
  import opened Types
  import opened ApsFc
  import opened RetransSpec
  import RetransProof

  class RetransTable {
    const hash: array<Slot>
    var counter: byte
    /** What the handlers ask of the scheduler, the NWK layer and the buffer owner. */
    var alarms: seq<nat>
    var nwk: seq<nat>
    var handed: seq<nat>
    var outcomes: seq<Outcome>
    /** The frame-control octet of the frame in each packet buffer. */
    var fc: seq<byte>
    ghost var sent: seq<nat>
    ghost var passes: seq<nat>
    ghost var expiries: seq<nat>
    ghost var wild: nat

    ghost function Abs(): Aps
      reads this, hash
    {
      Aps(hash[..], counter, alarms, nwk, fc, sent, handed, outcomes, passes, expiries, wild)
    }

    ghost predicate Valid()
      reads this, hash
    {
      Shape(Abs())
    }

    constructor (start: byte)
      ensures Valid() && Abs() == RetransProof.Init(start)
    {
      hash := new Slot[ENTRIES](_ => RetransProof.EmptySlot());
      counter := start;
      alarms, nwk := seq(ENTRIES, _ => 0), seq(POOL_SIZE, _ => 0);
      handed, outcomes, fc := seq(POOL_SIZE, _ => 0), [], seq(POOL_SIZE, _ => 0);
      sent, passes := seq(POOL_SIZE, _ => 0), seq(ENTRIES, _ => 0);
      expiries, wild := seq(ENTRIES, _ => 0), 0;
    }

    // -------------------------------------------------------------- calls into other components

    /** `ZB_SCHEDULE_ALARM(zb_aps_ack_timer_cb, i, ...)`. */
    method ScheduleAckAlarm(i: nat)
      modifies this`alarms
      ensures alarms == Inc(old(alarms), i)
    {
      alarms := Inc(alarms, i);
    }

    /** `ZB_SCHEDULE_CALLBACK(zb_nlde_data_request, b)`. */
    method NldeDataRequest(b: byte)
      modifies this`nwk
      ensures nwk == Inc(old(nwk), b)
    {
      nwk := Inc(nwk, b);
    }

    /** The buffer is freed or passed to `zb_apsde_data_confirm`. */
    method ReturnBuffer(b: byte)
      modifies this`handed, this`wild
      ensures handed == Inc(old(handed), b)
      ensures wild == if b < |handed| then old(wild) else old(wild) + 1
    {
      if b >= |handed| { wild := wild + 1; }
      handed := Inc(handed, b);
    }

    // -------------------------------------------------------------- handlers

    /** `done_with_this_ack`. */
    method DoneWithThisAck(i: nat, ackFormat: bool, status: Status)
      requires Valid() && i < ENTRIES
      modifies this`handed, this`wild, this`outcomes, this`alarms, hash
      ensures Abs() == Done(old(Abs()), i, ackFormat, status)
    {
      var b := hash[i].buf;
      outcomes := outcomes + [Outcome(b, ackFormat, b < |fc| && AckFormat(fc[b]), status)];
      ReturnBuffer(b);
      hash[i] := hash[i].(state := SlotFree);
      hash[i] := hash[i].(addr := NO_ADDR);
      hash[i] := hash[i].(buf := NO_BUF);
      alarms := Dec(alarms, i);
    }

    /** `save_ack_data`; `full` is the status ZB_APS_STATUS_TABLE_FULL. */
    method SaveAckData(b: byte, req: DataReq) returns (full: bool, ref: nat)
      requires Valid()
      modifies this`passes, this`expiries, hash
      ensures Valid() && Abs() == SaveStep(old(Abs()), b, req)
      ensures var i := FindFree(old(hash[..]), 0);
              full == (i == ENTRIES - 1) && ref == (if i == ENTRIES then 0 else i)
    {
      ref := 0;
      var i := 0;
      while i < ENTRIES
        invariant i <= ENTRIES && ref == 0
        invariant hash[..] == old(hash[..]) && Abs() == old(Abs())
        invariant forall k :: 0 <= k < i ==> Live(hash[k])
      {
        if hash[i].state == SlotFree {
          hash[i] := Slot(req.dst, req.clusterid, (counter - 1) % 256, req.srcEndpoint, req.dstEndpoint,
                          b, MAX_FRAME_ENTRIES, false, NotConfirmed);
          passes, expiries := passes[i := 0], expiries[i := 0];
          ref := i;
          break;
        }
        i := i + 1;
      }
      full := i == ENTRIES - 1;
    }

    /** The part of `zb_apsde_data_request` that acts on the result of `save_ack_data`. */
    method SendAfterSave(b: byte, full: bool, ref: nat, ghost i: nat)
      requires Valid() && i <= ENTRIES
      requires full == (i == ENTRIES - 1) && ref == (if i == ENTRIES then 0 else i)
      modifies this`handed, this`wild, this`alarms, this`nwk, this`passes
      ensures Abs() == SendSaved(old(Abs()), b, i)
    {
      if full {
        ReturnBuffer(b);
      } else {
        ScheduleAckAlarm(ref);
        NldeDataRequest(b);
        passes := if i == ENTRIES then passes else Inc(passes, ref);
      }
    }

    /** The acknowledged unicast path of `zb_apsde_data_request`. */
    method DataRequest(b: byte, req: DataReq)
      requires Valid() && b < POOL_SIZE
      modifies this, hash
      ensures Valid() && Abs() == SendDataStep(old(Abs()), b, req)
    {
      WriteFrame(b, DataFc(DELIVERY_UNICAST, true));
      ghost var i := FindFree(hash[..], 0);
      var full, ref := SaveAckData(b, req);
      SendAfterSave(b, full, ref, i);
    }

    /** The frame is built in the buffer and takes the next counter value. */
    method WriteFrame(b: byte, octet: byte)
      requires Valid() && b < POOL_SIZE
      modifies this`sent, this`fc, this`counter
      ensures Valid() && Abs() == Accept(old(Abs()), b, octet).(counter := (old(counter) + 1) % 256)
    {
      sent := Inc(sent, b);
      fc := fc[b := octet];
      counter := (counter + 1) % 256;
    }

    /** The slot bookkeeping of `zb_aps_send_command`. */
    method SaveCommandData(b: byte, dest: u16, secure: bool)
      requires Valid()
      modifies this`alarms, this`passes, this`expiries, hash
      ensures Valid() && Abs() == SaveCommand(old(Abs()), b, dest, secure)
    {
      if !IsBroadcast(dest) {
        var i := 0;
        while i < ENTRIES && hash[i].state != SlotFree
          invariant i <= ENTRIES
          invariant forall k :: 0 <= k < i ==> Live(hash[k])
        {
          i := i + 1;
        }
        if i < ENTRIES {
          hash[i] := hash[i].(addr := dest, counter := counter, buf := b, insecure := !secure,
                              retries := MAX_FRAME_ENTRIES, state := NotConfirmed);
          passes, expiries := passes[i := 1], expiries[i := 0];
          ScheduleAckAlarm(i);
        }
      }
    }

    /** `zb_aps_send_command`. */
    method CommandRequest(b: byte, dest: u16, secure: bool)
      requires Valid() && b < POOL_SIZE
      modifies this, hash
      ensures Valid() && Abs() == SendCommandStep(old(Abs()), b, dest, secure)
    {
      SaveCommandData(b, dest, secure);
      WriteFrame(b, CommandFc(!IsBroadcast(dest)));
      NldeDataRequest(b);
    }

    /** A frame that waits for no acknowledgement: plain data, or an acknowledgement of our own. */
    method PlainRequest(b: byte, octet: byte)
      requires Valid() && b < POOL_SIZE
      modifies this`sent, this`fc, this`nwk
      ensures Valid() && Abs() == PassDown(Accept(old(Abs()), b, octet), b)
    {
      sent := Inc(sent, b);
      fc := fc[b := octet];
      NldeDataRequest(b);
    }

    /** `zb_nlde_data_confirm`, called when the NWK layer gives buffer `b` back. */
    method NldeDataConfirm(b: byte)
      requires Valid() && b < POOL_SIZE
      modifies this, hash
      ensures Valid() && Abs() == NwkConfirmStep(old(Abs()), b)
    {
      nwk := Dec(nwk, b);
      if FrameType(fc[b]) == FRAME_ACK {
        ReturnBuffer(b);
      } else if !AckRequest(fc[b]) {
        ReturnBuffer(b);
      } else {
        var i := 0;
        while i < ENTRIES && hash[i].buf != b
          invariant i <= ENTRIES
          invariant forall k :: 0 <= k < i ==> hash[k].buf != b
        {
          i := i + 1;
        }
        if i < ENTRIES {
          if hash[i].state == NotConfirmedAcked {
            DoneWithThisAck(i, AckFormat(fc[b]), Ok);
          } else {
            hash[i] := hash[i].(state := Confirmed);
          }
        } else {
          ReturnBuffer(b);
        }
      }
    }

    /** `aps_ack_frame_handle`. */
    method AckFrameHandle(a: Ack)
      requires Valid()
      modifies this, hash
      ensures Valid() && Abs() == PeerAckStep(old(Abs()), a)
    {
      var i := 0;
      while i < ENTRIES && !AckMatches(hash[i], a)
        invariant i <= ENTRIES
        invariant forall k :: 0 <= k < i ==> !AckMatches(hash[k], a)
      {
        i := i + 1;
      }
      if i < ENTRIES {
        if hash[i].state == NotConfirmed {
          hash[i] := hash[i].(state := NotConfirmedAcked);
        } else {
          DoneWithThisAck(i, a.commandFormat, Ok);
        }
      }
    }

    /** `zb_aps_ack_timer_cb`, run for an alarm that has just left the timer queue. */
    method AckTimerCb(i: nat)
      requires Valid() && i < ENTRIES
      modifies this, hash
      ensures Valid() && Abs() == AckTimerStep(old(Abs()), i)
    {
      var ackFormat := Expire(i);
      if hash[i].retries == 0 && hash[i].state == Confirmed {
        DoneWithThisAck(i, ackFormat, NoAck);
      } else {
        ScheduleAckAlarm(i);
        if hash[i].state == Confirmed {
          Retransmit(i);
        }
      }
    }

    /** Its first part, up to the test of the retries. */
    method Expire(i: nat) returns (ackFormat: bool)
      requires Valid() && i < ENTRIES
      modifies this, hash
      ensures Valid() && Abs() == Expired(old(Abs()), i)
      ensures ackFormat == (old(hash[i].buf) < POOL_SIZE && AckFormat(fc[old(hash[i].buf)]))
    {
      alarms := Dec(alarms, i);
      expiries := Inc(expiries, i);
      ackFormat := hash[i].buf < POOL_SIZE && AckFormat(fc[hash[i].buf]);
      if hash[i].buf >= POOL_SIZE { wild := wild + 1; }
      hash[i] := hash[i].(retries := if hash[i].retries > 0 then hash[i].retries - 1 else 0);
    }

    /** Passes a confirmed packet to NWK again. */
    method Retransmit(i: nat)
      requires Valid() && i < ENTRIES
      modifies this`nwk, this`passes, hash
      ensures Valid() && Abs() == PassDown(old(Abs()), old(hash[i].buf)).(
                slots := old(hash[..])[i := old(hash[i]).(state := NotConfirmed)], passes := Inc(old(passes), i))
    {
      hash[i] := hash[i].(state := NotConfirmed);
      NldeDataRequest(hash[i].buf);
      passes := Inc(passes, i);
    }
  }
}
