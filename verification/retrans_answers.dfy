/** What each event of acknowledged delivery does, said of the state before and after it, and what
    becomes of a packet: it is retransmitted, given up, or acknowledged. */
module RetransAnswers {
  import opened Types
  import opened ApsFc
  import opened RetransSpec
  import opened RetransProof
  import opened ApsFrame

  /** Slot `i` holds buffer `b` and is in the given state. */
  ghost predicate At(s: Aps, i: nat, b: byte, state: SlotState)
    requires Shape(s)
  {
    i < ENTRIES && b < POOL_SIZE && Live(s.slots[i]) && s.slots[i].buf == b && s.slots[i].state == state
  }

  /** Slot `i` has been emptied and its buffer `b` handed back with the outcome `o`. */
  ghost predicate Ended(s: Aps, s': Aps, i: nat, b: byte, o: Outcome)
    requires Shape(s) && Shape(s')
  {
    && i < ENTRIES && !Live(s'.slots[i]) && s'.alarms[i] == 0
    && (forall k :: 0 <= k < ENTRIES && k != i ==> s'.slots[k] == s.slots[k] && s'.alarms[k] == s.alarms[k])
    && s'.handed == Inc(s.handed, b) && s'.outcomes == s.outcomes + [o]
    && s'.sent == s.sent && s'.passes == s.passes && s'.fc == s.fc && s'.counter == s.counter
  }

  // ---------------------------------------------------------------- the timer

  /** A first or second expiry that finds the packet confirmed and not acknowledged transmits it again. */
  lemma ExpiryRetransmits(s: Aps, i: nat, b: byte)
    requires Inv(s) && At(s, i, b, Confirmed) && s.expiries[i] + 1 < 3
    ensures Enabled(s, AckTimer(i))
    ensures var s' := Step(s, AckTimer(i));
            && s'.slots == s.slots[i := s.slots[i].(state := NotConfirmed, retries := s'.slots[i].retries)]
            && At(s', i, b, NotConfirmed) && s'.alarms[i] == 1 && s'.alarms == s.alarms
            && s'.nwk == Inc(s.nwk, b) && s'.passes == Inc(s.passes, i) && s'.expiries == Inc(s.expiries, i)
            && s'.handed == s.handed && s'.outcomes == s.outcomes && s'.sent == s.sent && s'.fc == s.fc
  {
    assert SlotOk(s, i);
  }

  /** An expiry that finds the packet still with NWK only waits on. */
  lemma ExpiryWaits(s: Aps, i: nat, b: byte)
    requires Inv(s) && i < ENTRIES && Live(s.slots[i]) && s.slots[i].state != Confirmed && s.slots[i].buf == b
    ensures Enabled(s, AckTimer(i))
    ensures var s' := Step(s, AckTimer(i));
            && At(s', i, b, s.slots[i].state) && s'.alarms == s.alarms && s'.nwk == s.nwk && s'.passes == s.passes
            && s'.slots == s.slots[i := s.slots[i].(retries := s'.slots[i].retries)] && s'.expiries == Inc(s.expiries, i)
            && s'.handed == s.handed && s'.outcomes == s.outcomes && s'.sent == s.sent && s'.fc == s.fc
  {
    assert SlotOk(s, i);
  }

  /** The third expiry, or a later one, that finds the packet confirmed gives it up: data is confirmed
      upwards, a command is freed. */
  lemma ExpiryGivesUp(s: Aps, i: nat, b: byte)
    requires Inv(s) && At(s, i, b, Confirmed) && s.expiries[i] + 1 >= 3
    ensures Enabled(s, AckTimer(i))
    ensures var s', command := Step(s, AckTimer(i)), AckFormat(s.fc[b]);
            Ended(s, s', i, b, Outcome(b, command, command, NoAck)) && s'.nwk == s.nwk
  {
    assert SlotOk(s, i);
  }

  // ---------------------------------------------------------------- the NWK layer

  lemma FindBufIs(s: Aps, i: nat, b: byte)
    requires Inv(s) && i < ENTRIES && Live(s.slots[i]) && s.slots[i].buf == b
    ensures FindBuf(s.slots, b, 0) == i && b < POOL_SIZE
  {
    assert SlotOk(s, i);
    var k := FindBuf(s.slots, b, 0);
    if k < ENTRIES { assert SlotOk(s, k); }
  }

  /** The NWK confirm of a packet that is not acknowledged yet is noted. */
  lemma ConfirmNoted(s: Aps, i: nat, b: byte)
    requires Inv(s) && At(s, i, b, NotConfirmed)
    ensures Enabled(s, NwkConfirm(b))
    ensures var s' := Step(s, NwkConfirm(b));
            s' == s.(nwk := s.nwk[b := 0], slots := s.slots[i := s.slots[i].(state := Confirmed)])
  {
    assert SlotOk(s, i);
    FindBufIs(s, i, b);
  }

  /** The NWK confirm of a packet acknowledged meanwhile ends its slot with success. */
  lemma ConfirmEnds(s: Aps, i: nat, b: byte)
    requires Inv(s) && At(s, i, b, NotConfirmedAcked)
    ensures Enabled(s, NwkConfirm(b))
    ensures var s', command := Step(s, NwkConfirm(b)), AckFormat(s.fc[b]);
            Ended(s, s', i, b, Outcome(b, command, command, Ok)) && s'.nwk == s.nwk[b := 0]
  {
    assert SlotOk(s, i);
    FindBufIs(s, i, b);
  }

  /** The NWK confirm of any other frame, an acknowledgement of our own among them, hands its buffer back. */
  lemma ConfirmReturns(s: Aps, b: byte)
    requires Inv(s) && Enabled(s, NwkConfirm(b)) && !InSlot(s, b)
    ensures var s' := Step(s, NwkConfirm(b));
            s' == s.(nwk := s.nwk[b := 0], handed := Inc(s.handed, b))
  {
    forall k | 0 <= k < ENTRIES ensures s.slots[k].buf != b {
      assert SlotOk(s, k);
    }
  }

  // ---------------------------------------------------------------- the peer's acknowledgement

  /** An acknowledgement before the NWK confirm is noted. */
  lemma AckNoted(s: Aps, a: Ack, i: nat)
    requires Inv(s) && i < ENTRIES && FindAck(s.slots, a, 0) == i && s.slots[i].state == NotConfirmed
    ensures Step(s, PeerAck(a)) == s.(slots := s.slots[i := s.slots[i].(state := NotConfirmedAcked)])
  {
  }

  /** An acknowledgement after it ends the slot with success. */
  lemma AckEnds(s: Aps, a: Ack, i: nat, b: byte)
    requires Inv(s) && At(s, i, b, Confirmed) && FindAck(s.slots, a, 0) == i
    ensures var s' := Step(s, PeerAck(a));
            Ended(s, s', i, b, Outcome(b, a.commandFormat, AckFormat(s.fc[b]), Ok)) && s'.nwk == s.nwk
  {
    assert SlotOk(s, i);
  }

  /** An acknowledgement that matches no slot changes nothing. */
  lemma AckUnknown(s: Aps, a: Ack)
    requires Inv(s) && forall k :: 0 <= k < ENTRIES ==> !AckMatches(s.slots[k], a)
    ensures Step(s, PeerAck(a)) == s
  {
  }

  // ---------------------------------------------------------------- sending

  /** A data frame that finds a slot below the last one is in that slot, with the counter value its header
      carries, waits for its acknowledgement with one alarm, and is with NWK. */
  lemma SendDataAccepted(s: Aps, b: byte, req: DataReq, i: nat)
    requires Inv(s) && Enabled(s, SendData(b, req)) && FindFree(s.slots, 0) == i < ENTRIES - 1
    ensures var s' := Step(s, SendData(b, req));
            && s'.slots == s.slots[i := Slot(req.dst, req.clusterid, s.counter, req.srcEndpoint, req.dstEndpoint, b, 3, false, NotConfirmed)]
            && s'.alarms == Inc(s.alarms, i) && s'.nwk == Inc(s.nwk, b) && s'.sent == Inc(s.sent, b)
            && s'.passes == s.passes[i := 1] && s'.expiries == s.expiries[i := 0]
            && s'.counter == (s.counter + 1) % 256 && s'.handed == s.handed && s'.outcomes == s.outcomes
            && s'.fc == s.fc[b := s'.fc[b]]
            && FrameType(s'.fc[b]) == FRAME_DATA && AckRequest(s'.fc[b]) && !AckFormat(s'.fc[b])
            && DeliveryMode(s'.fc[b]) == DELIVERY_UNICAST
  {
  }

  /** The same for a command to a single device; here every free slot serves. */
  lemma SendCommandAccepted(s: Aps, b: byte, dest: u16, secure: bool, i: nat)
    requires Inv(s) && Enabled(s, SendCommand(b, dest, secure)) && dest < 0xfff0 && FindFree(s.slots, 0) == i < ENTRIES
    ensures var s', was := Step(s, SendCommand(b, dest, secure)), s.slots[i];
            && s'.slots == s.slots[i := Slot(dest, was.clusterid, s.counter, was.srcEndpoint, was.dstEndpoint, b, 3, !secure, NotConfirmed)]
            && s'.alarms == Inc(s.alarms, i) && s'.nwk == Inc(s.nwk, b) && s'.sent == Inc(s.sent, b)
            && s'.passes == s.passes[i := 1] && s'.expiries == s.expiries[i := 0]
            && s'.counter == (s.counter + 1) % 256 && s'.handed == s.handed && s'.outcomes == s.outcomes
            && s'.fc == s.fc[b := s'.fc[b]]
            && FrameType(s'.fc[b]) == FRAME_COMMAND && AckRequest(s'.fc[b]) && AckFormat(s'.fc[b])
  {
  }

  /** A command to many, or without a free slot, is sent all the same and waits for nothing. */
  lemma SendCommandUntracked(s: Aps, b: byte, dest: u16, secure: bool)
    requires Inv(s) && Enabled(s, SendCommand(b, dest, secure)) && (dest >= 0xfff0 || FindFree(s.slots, 0) == ENTRIES)
    ensures var s' := Step(s, SendCommand(b, dest, secure));
            && s'.slots == s.slots && s'.alarms == s.alarms && s'.nwk == Inc(s.nwk, b) && s'.sent == Inc(s.sent, b)
            && s'.counter == (s.counter + 1) % 256 && s'.handed == s.handed && s'.outcomes == s.outcomes
            && (AckRequest(s'.fc[b]) <==> dest < 0xfff0)
  {
  }

  lemma SendPlainPasses(s: Aps, b: byte, fc: byte)
    requires Inv(s) && Enabled(s, SendPlain(b, fc))
    ensures Step(s, SendPlain(b, fc)) == s.(sent := Inc(s.sent, b), fc := s.fc[b := fc], nwk := Inc(s.nwk, b))
  {
  }

  // ---------------------------------------------------------------- retransmission over a run

  /** How often the expiries of a run retransmit the packet of slot `i`: those that find it confirmed and
      are at most its second one. */
  ghost function Retransmissions(s: Aps, es: seq<Event>, i: nat): nat
    requires Shape(s) && EnabledAll(s, es) && i < ENTRIES
    decreases |es|
  {
    if es == [] then 0
    else
      (if es[0] == AckTimer(i) && s.slots[i].state == Confirmed && s.expiries[i] + 1 < 3 then 1 else 0)
      + Retransmissions(Step(s, es[0]), es[1..], i)
  }

  /** Only the NWK layer and the timer act. */
  predicate Unanswered(es: seq<Event>) { forall k :: 0 <= k < |es| ==> es[k].NwkConfirm? || es[k].AckTimer? }

  /** A step of NWK or of another slot's timer transmits nothing of slot `i`. */
  lemma OtherStepsKeepPasses(s: Aps, e: Event, i: nat)
    requires Inv(s) && Enabled(s, e) && (e.NwkConfirm? || e.AckTimer?) && i < ENTRIES && e != AckTimer(i)
    ensures Step(s, e).passes[i] == s.passes[i]
  {
  }

  lemma TimerPasses(s: Aps, i: nat)
    requires Inv(s) && i < ENTRIES && Enabled(s, AckTimer(i))
    ensures Step(s, AckTimer(i)).passes[i] == s.passes[i] + if s.slots[i].state == Confirmed && s.expiries[i] + 1 < 3 then 1 else 0
  {
    assert SlotOk(s, i);
  }

  /** In every run of NWK confirms and expiries the packet of a slot is transmitted again exactly so often. */
  lemma {:induction false} PassesCounted(s: Aps, es: seq<Event>, i: nat)
    requires Inv(s) && EnabledAll(s, es) && Unanswered(es) && i < ENTRIES
    ensures Run(s, es).passes[i] == s.passes[i] + Retransmissions(s, es, i)
    decreases |es|
  {
    if es != [] {
      assert es[0].NwkConfirm? || es[0].AckTimer?;
      StepExact(s, es[0]);
      if es[0] == AckTimer(i) { TimerPasses(s, i); } else { OtherStepsKeepPasses(s, es[0], i); }
      PassesCounted(Step(s, es[0]), es[1..], i);
    }
  }

  /** One round: NWK confirms the packet, then its timer expires. */
  lemma Round(s: Aps, i: nat, b: byte) returns (s1: Aps, s2: Aps)
    requires Inv(s) && At(s, i, b, NotConfirmed)
    ensures Enabled(s, NwkConfirm(b)) && s1 == Step(s, NwkConfirm(b)) && Inv(s1) && At(s1, i, b, Confirmed)
    ensures Enabled(s1, AckTimer(i)) && s2 == Step(s1, AckTimer(i)) && Inv(s2)
    ensures s2.expiries[i] == s.expiries[i] + 1 && s2.fc == s.fc
    ensures s.expiries[i] + 1 < 3 ==>
              At(s2, i, b, NotConfirmed) && s2.passes[i] == s.passes[i] + 1 && s2.handed == s.handed && s2.outcomes == s.outcomes
    ensures s.expiries[i] + 1 >= 3 ==>
              !Live(s2.slots[i]) && s2.passes[i] == s.passes[i] && s2.handed == Inc(s.handed, b) && s2.nwk[b] == 0
              && s2.outcomes == s.outcomes + [Outcome(b, AckFormat(s.fc[b]), AckFormat(s.fc[b]), NoAck)]
  {
    ConfirmNoted(s, i, b);
    s1 := Step(s, NwkConfirm(b));
    StepExact(s, NwkConfirm(b));
    if s.expiries[i] + 1 < 3 { ExpiryRetransmits(s1, i, b); } else { ExpiryGivesUp(s1, i, b); }
    s2 := Step(s1, AckTimer(i));
    StepExact(s1, AckTimer(i));
  }

  /** `n` rounds of a NWK confirm of buffer `b` and an expiry of slot `i`. */
  function Rounds(b: byte, i: nat, n: nat): seq<Event> {
    if n == 0 then [] else [NwkConfirm(b)] + ([AckTimer(i)] + Rounds(b, i, n - 1))
  }

  /** A packet that is never acknowledged, with `n` expiries left: each round but the last transmits it
      again, and the last gives it up with NoAck and hands its buffer back. */
  lemma {:induction false} RoundsToEnd(s: Aps, i: nat, b: byte, n: nat) returns (end: Aps)
    requires Inv(s) && At(s, i, b, NotConfirmed) && n > 0 && s.expiries[i] + n == 3
    ensures Leads(s, Rounds(b, i, n), end)
    ensures !Live(end.slots[i]) && end.passes[i] == s.passes[i] + n - 1 && end.handed == Inc(s.handed, b) && end.nwk[b] == 0
    ensures end.outcomes == s.outcomes + [Outcome(b, AckFormat(s.fc[b]), AckFormat(s.fc[b]), NoAck)]
    decreases n
  {
    var s1, s2 := Round(s, i, b);
    if n == 1 { end := s2; } else { end := RoundsToEnd(s2, i, b, n - 1); }
    var rest := Rounds(b, i, n - 1);
    assert Leads(s2, rest, end);
    assert Leads(s1, [AckTimer(i)] + rest, end) by { LeadsOn(s1, AckTimer(i), s2, rest, [AckTimer(i)] + rest, end); }
    LeadsOn(s, NwkConfirm(b), s1, [AckTimer(i)] + rest, Rounds(b, i, n), end);
  }

  /** A data frame that is sent and never acknowledged is transmitted three times, each time NWK has
      confirmed it; then it is given up, and its buffer handed back once. */
  lemma ThreeTransmissions(s: Aps, b: byte, req: DataReq) returns (end: Aps)
    requires Inv(s) && Enabled(s, SendData(b, req)) && FindFree(s.slots, 0) < ENTRIES - 1
    ensures Leads(s, [SendData(b, req)] + Rounds(b, FindFree(s.slots, 0), 3), end)
    ensures !Live(end.slots[FindFree(s.slots, 0)]) && end.passes[FindFree(s.slots, 0)] == 3
    ensures end.handed == Inc(s.handed, b) && end.outcomes == s.outcomes + [Outcome(b, false, false, NoAck)]
  {
    var i, send := FindFree(s.slots, 0), SendData(b, req);
    SendDataAccepted(s, b, req, i);
    StepExact(s, send);
    var s1 := Step(s, send);
    end := RoundsToEnd(s1, i, b, 3);
    LeadsOn(s, send, s1, Rounds(b, i, 3), [send] + Rounds(b, i, 3), end);
  }

  // ---------------------------------------------------------------- delivery over a run

  /** From `s` to `end`, buffer `b` was sent once, acknowledged through slot `i`, and handed back once. */
  ghost predicate Delivered(s: Aps, end: Aps, i: nat, b: byte, command: bool)
    requires Shape(s) && Shape(end)
  {
    && i < ENTRIES && b < POOL_SIZE && !Live(end.slots[i]) && end.alarms[i] == 0 && end.passes[i] == 1
    && (forall k :: 0 <= k < ENTRIES && k != i ==> end.slots[k] == s.slots[k])
    && end.sent == Inc(s.sent, b) && end.handed == Inc(s.handed, b) && end.nwk[b] == 0
    && end.outcomes == s.outcomes + [Outcome(b, command, command, Ok)]
  }

  lemma {:induction false} SameAck(slots: seq<Slot>, slots': seq<Slot>, a: Ack, i: nat)
    requires i <= |slots| == |slots'| && forall k :: 0 <= k < |slots| ==> (AckMatches(slots[k], a) <==> AckMatches(slots'[k], a))
    ensures FindAck(slots', a, i) == FindAck(slots, a, i)
    decreases |slots| - i
  {
    if i < |slots| { SameAck(slots, slots', a, i + 1); }
  }

  /** A packet just sent, with the acknowledgement that finds its slot: NWK confirm and acknowledgement, in
      either order, deliver it. */
  lemma ConfirmAndAck(s: Aps, i: nat, b: byte, a: Ack, ackFirst: bool) returns (end: Aps)
    requires Inv(s) && At(s, i, b, NotConfirmed) && FindAck(s.slots, a, 0) == i
    requires a.commandFormat <==> AckFormat(s.fc[b])
    ensures Leads(s, if ackFirst then [PeerAck(a), NwkConfirm(b)] else [NwkConfirm(b), PeerAck(a)], end)
    ensures Ended(s, end, i, b, Outcome(b, a.commandFormat, a.commandFormat, Ok)) && end.nwk == s.nwk[b := 0]
  {
    var c, p := NwkConfirm(b), PeerAck(a);
    if ackFirst {
      AckNoted(s, a, i);
      var s1 := Step(s, p);
      StepExact(s, p);
      ConfirmEnds(s1, i, b);
      end := Step(s1, c);
      assert Leads(s1, [c], end) by { LeadsOn(s1, c, end, [], [c], end); }
      LeadsOn(s, p, s1, [c], [p, c], end);
    } else {
      ConfirmNoted(s, i, b);
      var s1 := Step(s, c);
      StepExact(s, c);
      SameAck(s.slots, s1.slots, a, 0);
      AckEnds(s1, a, i, b);
      end := Step(s1, p);
      assert Leads(s1, [p], end) by { LeadsOn(s1, p, end, [], [p], end); }
      LeadsOn(s, c, s1, [p], [c, p], end);
    }
  }

  /** End to end: a data frame is sent, confirmed by NWK and acknowledged by the peer, in either order; its
      buffer is handed back once, confirmed with success. No earlier slot may wait for the same answer. */
  lemma DataDelivered(s: Aps, b: byte, req: DataReq, group: u16, payload: seq<byte>, ackFirst: bool) returns (end: Aps)
    requires Inv(s) && Enabled(s, SendData(b, req)) && FindFree(s.slots, 0) < ENTRIES - 1
    requires forall j :: 0 <= j < FindFree(s.slots, 0) ==>
               !(s.slots[j].addr == req.dst && s.slots[j].counter == s.counter && s.slots[j].clusterid == req.clusterid
                 && s.slots[j].srcEndpoint == req.srcEndpoint && s.slots[j].dstEndpoint == req.dstEndpoint)
    ensures var hdr := HdrReq(group, req.dstEndpoint, req.clusterid, req.profileid, req.srcEndpoint);
            var a := DataAck(hdr, req.dst, s.counter, payload);
            Leads(s, if ackFirst then [SendData(b, req), PeerAck(a), NwkConfirm(b)]
                     else [SendData(b, req), NwkConfirm(b), PeerAck(a)], end)
    ensures Delivered(s, end, FindFree(s.slots, 0), b, false)
  {
    var i := FindFree(s.slots, 0);
    var hdr := HdrReq(group, req.dstEndpoint, req.clusterid, req.profileid, req.srcEndpoint);
    var a := DataAck(hdr, req.dst, s.counter, payload);
    var send := SendData(b, req);
    SendDataAccepted(s, b, req, i);
    StepExact(s, send);
    var s1 := Step(s, send);
    assert FindAck(s1.slots, a, 0) == i by { DataAckFindsEntry(s, b, req, group, payload); }
    assert !a.commandFormat by { DataAckMatches(hdr, req.dst, s.counter, payload, s1.slots[i]); }
    end := ConfirmAndAck(s1, i, b, a, ackFirst);
    var rest := if ackFirst then [PeerAck(a), NwkConfirm(b)] else [NwkConfirm(b), PeerAck(a)];
    LeadsOn(s, send, s1, rest, [send] + rest, end);
    assert [send] + rest == if ackFirst then [send, PeerAck(a), NwkConfirm(b)] else [send, NwkConfirm(b), PeerAck(a)];
  }

  /** The same for a command to a single device; its buffer is freed. */
  lemma CommandDelivered(s: Aps, b: byte, dest: u16, secure: bool, command: byte, payload: seq<byte>, ackFirst: bool)
    returns (end: Aps)
    requires Inv(s) && Enabled(s, SendCommand(b, dest, secure)) && dest < 0xfff0 && FindFree(s.slots, 0) < ENTRIES
    requires forall j :: 0 <= j < FindFree(s.slots, 0) ==> !(s.slots[j].addr == dest && s.slots[j].counter == s.counter)
    ensures var a := CommandAck(dest, s.counter, command, payload);
            Leads(s, if ackFirst then [SendCommand(b, dest, secure), PeerAck(a), NwkConfirm(b)]
                     else [SendCommand(b, dest, secure), NwkConfirm(b), PeerAck(a)], end)
    ensures Delivered(s, end, FindFree(s.slots, 0), b, true)
  {
    var i := FindFree(s.slots, 0);
    var a := CommandAck(dest, s.counter, command, payload);
    var send := SendCommand(b, dest, secure);
    SendCommandAccepted(s, b, dest, secure, i);
    StepExact(s, send);
    var s1 := Step(s, send);
    assert FindAck(s1.slots, a, 0) == i && a.commandFormat by {
      CommandAckFindsEntry(s, b, dest, secure, command, payload);
    }
    end := ConfirmAndAck(s1, i, b, a, ackFirst);
    var rest := if ackFirst then [PeerAck(a), NwkConfirm(b)] else [NwkConfirm(b), PeerAck(a)];
    LeadsOn(s, send, s1, rest, [send] + rest, end);
    assert [send] + rest == if ackFirst then [send, PeerAck(a), NwkConfirm(b)] else [send, NwkConfirm(b), PeerAck(a)];
  }

  /** An acknowledgement of our own: it is sent, and its NWK confirm hands its buffer back; the slots are
      not touched. */
  lemma OwnAckReturned(s: Aps, b: byte, h: ApsHdr) returns (end: Aps)
    requires Inv(s) && b < POOL_SIZE && s.sent[b] <= s.handed[b] && Acknowledgeable(h)
    ensures Leads(s, [SendPlain(b, EncodeAck(h)[0]), NwkConfirm(b)], end)
    ensures end.slots == s.slots && end.alarms == s.alarms && end.outcomes == s.outcomes
    ensures end.sent == Inc(s.sent, b) && end.handed == Inc(s.handed, b) && end.nwk[b] == 0
  {
    AckHeader(h);
    var send, c := SendPlain(b, EncodeAck(h)[0]), NwkConfirm(b);
    SendPlainPasses(s, b, EncodeAck(h)[0]);
    StepExact(s, send);
    var s1 := Step(s, send);
    assert !InSlot(s, b) && !InSlot(s1, b);
    ConfirmReturns(s1, b);
    end := Step(s1, c);
    assert Leads(s1, [c], end) by { LeadsOn(s1, c, end, [], [c], end); }
    LeadsOn(s, send, s1, [c], [send, c], end);
  }
}
