/** Safety of acknowledged delivery over every interleaving of its events. */
module RetransProof {
  import opened Types
  import opened ApsFc
  import opened RetransSpec

  ghost predicate SlotOk(s: Aps, i: nat)
    requires Shape(s) && i < ENTRIES
  {
    var slot := s.slots[i];
    if Live(slot) then
      && slot.buf < POOL_SIZE
      && s.alarms[i] == 1
      && s.nwk[slot.buf] == (if slot.state == Confirmed then 0 else 1)
      && AckRequest(s.fc[slot.buf]) && FrameType(s.fc[slot.buf]) != FRAME_ACK
      && 1 <= s.passes[i] <= MAX_FRAME_ENTRIES
      && s.passes[i] + slot.retries <= MAX_FRAME_ENTRIES + 1
      && slot.retries == (if s.expiries[i] < MAX_FRAME_ENTRIES then MAX_FRAME_ENTRIES - s.expiries[i] else 0)
    else
      s.alarms[i] == 0 && slot.addr == NO_ADDR && slot.buf == NO_BUF
  }

  /** Every live slot has exactly one pending alarm; an unconfirmed one exactly one outstanding NWK
      request and a confirmed one none; live slots hold distinct buffers; and every buffer that
      entered the APS was handed back exactly once or is still held exactly once. */
  ghost predicate Inv(s: Aps) {
    && Shape(s)
    && s.wild == 0
    && (forall i :: 0 <= i < ENTRIES ==> SlotOk(s, i))
    && (forall i, j :: 0 <= i < j < ENTRIES && Live(s.slots[i]) && Live(s.slots[j]) ==> s.slots[i].buf != s.slots[j].buf)
    && (forall b :: 0 <= b < POOL_SIZE ==> s.nwk[b] <= 1 && s.sent[b] == s.handed[b] + Held(s, b))
  }

  function EmptySlot(): Slot { Slot(NO_ADDR, 0, 0, 0, 0, NO_BUF, 0, false, SlotFree) }

  /** `zb_aps_init`. */
  function Init(counter: byte): Aps {
    Aps(seq(ENTRIES, _ => EmptySlot()), counter,
        seq(ENTRIES, _ => 0), seq(POOL_SIZE, _ => 0), seq(POOL_SIZE, _ => 0),
        seq(POOL_SIZE, _ => 0), seq(POOL_SIZE, _ => 0), [],
        seq(ENTRIES, _ => 0), seq(ENTRIES, _ => 0), 0)
  }

  lemma InitInv(counter: byte)
    ensures Inv(Init(counter))
  {
  }

  /** The guard under which an event is handled correctly: a data frame needs a free slot below the
      last one, and an acknowledgement must not hit an empty slot or an already acknowledged one. */
  ghost predicate Safe(s: Aps, e: Event)
    requires Shape(s)
  {
    match e
    case SendData(_, _) => FindFree(s.slots, 0) < ENTRIES - 1
    case PeerAck(a) =>
      var i := FindAck(s.slots, a, 0);
      i == ENTRIES || s.slots[i].state == NotConfirmed || s.slots[i].state == Confirmed
    case _ => true
  }

  /** A buffer no live slot holds. */
  lemma NotInSlot(s: Aps, b: byte, i: nat)
    requires Inv(s) && b < POOL_SIZE && i < ENTRIES && Held(s, b) == 0
    ensures Live(s.slots[i]) ==> s.slots[i].buf != b
    ensures s.nwk[b] == 0
  {
  }

  /** Filling the free slot `i` for a buffer from outside and passing it down keeps the invariant. */
  lemma TrackKeeps(s: Aps, s': Aps, i: nat, b: byte, fc: byte, slot: Slot)
    requires Inv(s) && Shape(s') && i < ENTRIES && !Live(s.slots[i])
    requires b < POOL_SIZE && Held(s, b) == 0
    requires slot.buf == b && slot.state == NotConfirmed && slot.retries == MAX_FRAME_ENTRIES
    requires AckRequest(fc) && FrameType(fc) != FRAME_ACK
    requires s'.slots == s.slots[i := slot] && s'.alarms == Inc(s.alarms, i)
    requires s'.nwk == Inc(s.nwk, b) && s'.fc == s.fc[b := fc]
    requires s'.sent == Inc(s.sent, b) && s'.handed == s.handed && s'.wild == 0
    requires s'.passes == s.passes[i := 1] && s'.expiries == s.expiries[i := 0]
    ensures Inv(s')
  {
    forall k | 0 <= k < ENTRIES ensures SlotOk(s', k) {
      assert SlotOk(s, k);
      NotInSlot(s, b, k);
    }
    forall c | 0 <= c < POOL_SIZE ensures s'.nwk[c] <= 1 && s'.sent[c] == s'.handed[c] + Held(s', c) {
      if c == b {
        assert s'.slots[i].buf == b;
      } else {
        SameHolders(s, s', c, i);
      }
    }
  }

  /** Replacing one slot by one that concerns other buffers changes no other buffer's holder. */
  lemma SameHolders(s: Aps, s': Aps, c: byte, i: nat)
    requires Shape(s) && Shape(s') && i < ENTRIES && s'.slots == s.slots[i := s'.slots[i]]
    requires !Live(s.slots[i]) || s.slots[i].buf != c
    requires !Live(s'.slots[i]) || s'.slots[i].buf != c
    ensures InSlot(s, c) <==> InSlot(s', c)
  {
    if InSlot(s, c) {
      var k :| 0 <= k < |s.slots| && Live(s.slots[k]) && s.slots[k].buf == c;
      assert s'.slots[k] == s.slots[k];
    }
    if InSlot(s', c) {
      var k :| 0 <= k < |s'.slots| && Live(s'.slots[k]) && s'.slots[k].buf == c;
      assert s'.slots[k] == s.slots[k];
    }
  }

  /** A frame that takes no slot only visits the NWK layer. */
  lemma UntrackedKeeps(s: Aps, b: byte, fc: byte, counter: byte)
    requires Inv(s) && b < POOL_SIZE && Held(s, b) == 0
    ensures Inv(PassDown(Accept(s, b, fc).(counter := counter), b))
  {
    var s' := PassDown(Accept(s, b, fc).(counter := counter), b);
    forall k | 0 <= k < ENTRIES ensures SlotOk(s', k) {
      assert SlotOk(s, k);
      NotInSlot(s, b, k);
    }
    forall c | 0 <= c < POOL_SIZE ensures s'.nwk[c] <= 1 && s'.sent[c] == s'.handed[c] + Held(s', c) {
      SameHolders(s, s', c, FreeWitness(s, s', c));
    }
  }

  /** Any slot serves to compare two equal tables, provided it does not hold `c`. */
  ghost function FreeWitness(s: Aps, s': Aps, c: byte): (i: nat)
    requires Inv(s) && Shape(s') && s'.slots == s.slots
    ensures i < ENTRIES && (!Live(s.slots[i]) || s.slots[i].buf != c)
  {
    if Live(s.slots[0]) && s.slots[0].buf == c then 1 else 0
  }

  /** Emptying a live slot and handing its buffer back keeps the invariant, provided NWK no longer
      holds the buffer and the slot's alarm is gone. */
  lemma DoneKeeps(s: Aps, s': Aps, i: nat)
    requires Inv(s) && Shape(s') && i < ENTRIES && Live(s.slots[i])
    requires s'.slots == s.slots[i := s'.slots[i]] && s'.slots[i].state == SlotFree
    requires s'.slots[i].addr == NO_ADDR && s'.slots[i].buf == NO_BUF
    requires s.slots[i].buf < POOL_SIZE
    requires s'.alarms == s.alarms[i := 0] && s'.nwk == s.nwk[s.slots[i].buf := 0] && s'.fc == s.fc
    requires s'.sent == s.sent && s'.handed == Inc(s.handed, s.slots[i].buf) && s'.wild == 0
    requires s'.passes == s.passes && s'.expiries == s.expiries[i := s'.expiries[i]]
    ensures Inv(s')
  {
    var b := s.slots[i].buf;
    assert SlotOk(s, i);
    forall k | 0 <= k < ENTRIES ensures SlotOk(s', k) {
      assert SlotOk(s, k);
    }
    forall c | 0 <= c < POOL_SIZE ensures s'.nwk[c] <= 1 && s'.sent[c] == s'.handed[c] + Held(s', c) {
      if c == b {
        assert InSlot(s, b) && !InSlot(s', b);
      } else {
        SameHolders(s, s', c, i);
      }
    }
  }

  /** Moving a live slot to another live state that agrees with the NWK layer keeps it. */
  lemma MoveKeeps(s: Aps, s': Aps, i: nat)
    requires Inv(s) && Shape(s') && i < ENTRIES && Live(s.slots[i])
    requires s'.slots == s.slots[i := s'.slots[i]] && Live(s'.slots[i]) && s'.slots[i].buf == s.slots[i].buf
    requires s'.alarms == s.alarms && s'.fc == s.fc
    requires s.slots[i].buf < POOL_SIZE && s'.nwk == s.nwk[s.slots[i].buf := s'.nwk[s.slots[i].buf]]
    requires s'.sent == s.sent && s'.handed == s.handed && s'.wild == 0
    requires s'.passes == s.passes[i := s'.passes[i]] && s'.expiries == s.expiries[i := s'.expiries[i]]
    requires SlotOk(s', i)
    ensures Inv(s')
  {
    var b := s.slots[i].buf;
    forall k | 0 <= k < ENTRIES ensures SlotOk(s', k) {
      assert SlotOk(s, k);
    }
    forall c | 0 <= c < POOL_SIZE ensures s'.nwk[c] <= 1 && s'.sent[c] == s'.handed[c] + Held(s', c) {
      if c == b {
        assert InSlot(s, b) && InSlot(s', b);
      } else {
        SameHolders(s, s', c, i);
      }
    }
  }

  // ---------------------------------------------------------------- one event

  lemma SendDataExact(s: Aps, b: byte, req: DataReq)
    requires Inv(s) && Enabled(s, SendData(b, req))
    ensures Inv(Step(s, SendData(b, req))) <==> FindFree(s.slots, 0) < ENTRIES - 1
  {
    var s' := SendDataStep(s, b, req);
    var i := FindFree(s.slots, 0);
    if i < ENTRIES {
      assert SlotOk(s, i);
    }
    if i < ENTRIES - 1 {
      TrackKeeps(s, s', i, b, DataFc(DELIVERY_UNICAST, true), s'.slots[i]);
    } else if i == ENTRIES - 1 {
      assert !SlotOk(s', i);
    } else {
      assert SlotOk(s, 0);
      assert !SlotOk(s', 0);
    }
  }

  lemma SendCommandKeeps(s: Aps, b: byte, dest: u16, secure: bool)
    requires Inv(s) && Enabled(s, SendCommand(b, dest, secure))
    ensures Inv(Step(s, SendCommand(b, dest, secure)))
  {
    var s' := SendCommandStep(s, b, dest, secure);
    var i := FindFree(s.slots, 0);
    if !IsBroadcast(dest) && i < ENTRIES {
      assert SlotOk(s, i);
      TrackKeeps(s, s', i, b, CommandFc(true), s'.slots[i]);
    } else {
      UntrackedKeeps(s, b, CommandFc(!IsBroadcast(dest)), (s.counter + 1) % 256);
    }
  }

  lemma NwkConfirmKeeps(s: Aps, b: byte)
    requires Inv(s) && Enabled(s, NwkConfirm(b))
    ensures Inv(Step(s, NwkConfirm(b)))
  {
    var s' := NwkConfirmStep(s, b);
    var i := FindBuf(s.slots, b, 0);
    if i < ENTRIES {
      assert SlotOk(s, i);
      if s.slots[i].state == NotConfirmedAcked {
        DoneKeeps(s, s', i);
      } else {
        MoveKeeps(s, s', i);
      }
    } else {
      ReturnKeeps(s, b);
    }
  }

  /** A buffer no slot refers to comes back from NWK and leaves the APS. */
  lemma ReturnKeeps(s: Aps, b: byte)
    requires Inv(s) && b < POOL_SIZE && s.nwk[b] > 0 && FindBuf(s.slots, b, 0) == ENTRIES
    ensures Inv(Return(s.(nwk := Dec(s.nwk, b)), b))
  {
    var s' := Return(s.(nwk := Dec(s.nwk, b)), b);
    forall k | 0 <= k < ENTRIES ensures SlotOk(s', k) {
      assert SlotOk(s, k);
    }
    forall c | 0 <= c < POOL_SIZE ensures s'.nwk[c] <= 1 && s'.sent[c] == s'.handed[c] + Held(s', c) {
      SameHolders(s, s', c, FreeWitness(s, s', c));
    }
  }

  lemma PeerAckExact(s: Aps, a: Ack)
    requires Inv(s)
    ensures Inv(Step(s, PeerAck(a))) <==> Safe(s, PeerAck(a))
  {
    var s' := PeerAckStep(s, a);
    var i := FindAck(s.slots, a, 0);
    if i < ENTRIES {
      assert SlotOk(s, i);
      var b := s.slots[i].buf;
      match s.slots[i].state {
        case NotConfirmed => MoveKeeps(s, s', i);
        case Confirmed => DoneKeeps(s, s', i);
        case SlotFree => assert s'.wild == 1;
        case NotConfirmedAcked =>
          assert InSlot(s, b) && s'.handed[b] == s.handed[b] + 1;
          assert !InSlot(s', b) && s'.nwk[b] == 1;
      }
    }
  }

  lemma AckTimerKeeps(s: Aps, i: nat)
    requires Inv(s) && Enabled(s, AckTimer(i))
    ensures Inv(Step(s, AckTimer(i)))
  {
    var s' := AckTimerStep(s, i);
    assert SlotOk(s, i);
    if s'.slots[i].state == SlotFree {
      DoneKeeps(s, s', i);
    } else {
      MoveKeeps(s, s', i);
    }
  }

  /** One event keeps the invariant exactly when its guard holds. */
  lemma StepExact(s: Aps, e: Event)
    requires Inv(s) && Enabled(s, e)
    ensures Inv(Step(s, e)) <==> Safe(s, e)
  {
    match e {
      case SendData(b, req) => SendDataExact(s, b, req);
      case SendCommand(b, dest, secure) => SendCommandKeeps(s, b, dest, secure);
      case SendPlain(b, fc) => UntrackedKeeps(s, b, fc, s.counter);
      case NwkConfirm(b) => NwkConfirmKeeps(s, b);
      case PeerAck(a) => PeerAckExact(s, a);
      case AckTimer(i) => AckTimerKeeps(s, i);
    }
  }

  // ---------------------------------------------------------------- whole runs

  ghost predicate EnabledAll(s: Aps, es: seq<Event>)
    requires Shape(s)
    decreases |es|
  {
    es == [] || (Enabled(s, es[0]) && EnabledAll(Step(s, es[0]), es[1..]))
  }

  ghost function Run(s: Aps, es: seq<Event>): (s': Aps)
    requires Shape(s) && EnabledAll(s, es)
    ensures Shape(s')
    decreases |es|
  {
    if es == [] then s else Run(Step(s, es[0]), es[1..])
  }

  /** Every event of the run meets its guard in the state it meets. */
  ghost predicate SafeAll(s: Aps, es: seq<Event>)
    requires Shape(s) && EnabledAll(s, es)
    decreases |es|
  {
    es == [] || (Safe(s, es[0]) && SafeAll(Step(s, es[0]), es[1..]))
  }

  /** Every state of the run satisfies the invariant. */
  ghost predicate InvAll(s: Aps, es: seq<Event>)
    requires Shape(s) && EnabledAll(s, es)
    decreases |es|
  {
    Inv(s) && (es == [] || InvAll(Step(s, es[0]), es[1..]))
  }

  /** A run keeps the invariant in all its states exactly when all its events meet their guards. */
  lemma {:induction false} EveryRun(s: Aps, es: seq<Event>)
    requires Inv(s) && EnabledAll(s, es)
    ensures InvAll(s, es) <==> SafeAll(s, es)
    ensures SafeAll(s, es) ==> Inv(Run(s, es))
    decreases |es|
  {
    if es != [] {
      var s' := Step(s, es[0]);
      StepExact(s, es[0]);
      if Safe(s, es[0]) {
        EveryRun(s', es[1..]);
      } else if es[1..] != [] {
        assert !InvAll(s', es[1..]);
      }
    }
  }

  lemma EveryRunFromStart(counter: byte, es: seq<Event>)
    requires EnabledAll(Init(counter), es)
    ensures InvAll(Init(counter), es) <==> SafeAll(Init(counter), es)
    ensures SafeAll(Init(counter), es) ==> Inv(Run(Init(counter), es))
  {
    InitInv(counter);
    EveryRun(Init(counter), es);
  }

  /** What bounds the transmissions of the packet in each slot, whether or not the slot is in order. */
  ghost predicate PassesBounded(s: Aps)
    requires Shape(s)
  {
    forall i :: 0 <= i < ENTRIES ==> s.passes[i] <= MAX_FRAME_ENTRIES && s.passes[i] + s.slots[i].retries <= MAX_FRAME_ENTRIES + 1
  }

  lemma PassesBoundedStep(s: Aps, e: Event)
    requires Shape(s) && Enabled(s, e) && PassesBounded(s)
    ensures PassesBounded(Step(s, e))
  {
  }

  lemma {:induction false} PassesBoundedRun(s: Aps, es: seq<Event>)
    requires Shape(s) && EnabledAll(s, es) && PassesBounded(s)
    ensures PassesBounded(Run(s, es))
    decreases |es|
  {
    if es != [] {
      PassesBoundedStep(s, es[0]);
      PassesBoundedRun(Step(s, es[0]), es[1..]);
    }
  }

  /** In every run from the start, guarded or not, no packet is transmitted more than three times:
      neither a full table nor a repeated acknowledgement breaks this. */
  lemma NeverMoreThanThree(counter: byte, es: seq<Event>, i: nat)
    requires EnabledAll(Init(counter), es) && i < ENTRIES
    ensures Run(Init(counter), es).passes[i] <= MAX_FRAME_ENTRIES
  {
    PassesBoundedRun(Init(counter), es);
  }

  /** A packet is transmitted at most three times; and a timer expiry ends a slot, with NoAck,
      exactly when it finds it confirmed and is at least the third one. */
  lemma RetriesBounded(s: Aps, i: nat)
    requires Inv(s) && i < ENTRIES && Live(s.slots[i])
    ensures 1 <= s.passes[i] <= MAX_FRAME_ENTRIES
    ensures Enabled(s, AckTimer(i))
    ensures var s' := Step(s, AckTimer(i));
            && (!Live(s'.slots[i]) <==> s.slots[i].state == Confirmed && s.expiries[i] + 1 >= MAX_FRAME_ENTRIES)
            && (!Live(s'.slots[i]) ==>
                  && s'.handed == Inc(s.handed, s.slots[i].buf)
                  && |s'.outcomes| == |s.outcomes| + 1
                  && s'.outcomes[|s.outcomes|].buf == s.slots[i].buf
                  && s'.outcomes[|s.outcomes|].status == NoAck)
  {
    assert SlotOk(s, i);
  }

  // ---------------------------------------------------------------- confirm data, free commands

  predicate KindOk(o: Outcome) { o.freed <==> o.command }

  /** An acknowledgement that ends a slot has the format of the frame it acknowledges. */
  ghost predicate FormatAgrees(s: Aps, e: Event)
    requires Inv(s)
  {
    match e
    case PeerAck(a) =>
      var i := FindAck(s.slots, a, 0);
      i < ENTRIES && s.slots[i].state == Confirmed ==>
        SlotOk(s, i) && (a.commandFormat <==> AckFormat(s.fc[s.slots[i].buf]))
    case _ => true
  }

  /** A finished slot's buffer is confirmed for data and freed for commands exactly when the
      acknowledgement's format agrees; timer and NWK confirm always choose rightly. */
  lemma OutcomesExact(s: Aps, e: Event)
    requires Inv(s) && Enabled(s, e) && Safe(s, e)
    ensures s.outcomes <= Step(s, e).outcomes
    ensures (forall k :: |s.outcomes| <= k < |Step(s, e).outcomes| ==> KindOk(Step(s, e).outcomes[k])) <==> FormatAgrees(s, e)
  {
    match e {
      case PeerAck(a) =>
        var i := FindAck(s.slots, a, 0);
        if i < ENTRIES {
          assert SlotOk(s, i);
          if s.slots[i].state == Confirmed {
            assert Step(s, e).outcomes[|s.outcomes|] == Outcome(s.slots[i].buf, a.commandFormat, AckFormat(s.fc[s.slots[i].buf]), Ok);
          }
        }
      case NwkConfirm(b) =>
        var i := FindBuf(s.slots, b, 0);
        if i < ENTRIES { assert SlotOk(s, i); }
      case AckTimer(i) => assert SlotOk(s, i);
      case _ =>
    }
  }

  // ---------------------------------------------------------------- what goes wrong otherwise

  /** A data frame that finds only the last slot free is reported as not accepted, yet occupies the
      slot, with no alarm that could ever empty it and no transmission. */
  lemma LastSlotLeaks(s: Aps, b: byte, req: DataReq)
    requires Inv(s) && Enabled(s, SendData(b, req)) && FindFree(s.slots, 0) == ENTRIES - 1
    ensures var s' := Step(s, SendData(b, req));
            && s'.handed == Inc(s.handed, b)
            && s'.slots[ENTRIES - 1].state == NotConfirmed && s'.slots[ENTRIES - 1].buf == b
            && s'.alarms[ENTRIES - 1] == 0 && s'.nwk[b] == 0
            && Enabled(s', SendData(b, req))
  {
    assert SlotOk(s, ENTRIES - 1);
  }

  /** A data frame that finds no slot is accepted: it is transmitted with no slot to match its
      acknowledgement, and slot 0, which belongs to another packet, gets a second alarm. */
  lemma FullTableDoubleAlarm(s: Aps, b: byte, req: DataReq)
    requires Inv(s) && Enabled(s, SendData(b, req)) && FindFree(s.slots, 0) == ENTRIES
    ensures var s' := Step(s, SendData(b, req));
            s'.alarms[0] == 2 && s'.nwk[b] == 1 && !InSlot(s', b)
  {
    assert SlotOk(s, 0);
    assert SendDataStep(s, b, req).slots == s.slots;
  }

  /** Any acknowledgement that arrives twice before the NWK confirm gives the buffer away while the
      NWK layer still holds it. */
  lemma RepeatedAckBreaks(s: Aps, a: Ack)
    requires Inv(s)
    requires FindAck(s.slots, a, 0) < ENTRIES && s.slots[FindAck(s.slots, a, 0)].state == NotConfirmed
    ensures var b := s.slots[FindAck(s.slots, a, 0)].buf;
            var s' := Step(Step(s, PeerAck(a)), PeerAck(a));
            && !Inv(s') && s'.handed == Inc(s.handed, b) && b < POOL_SIZE && s'.nwk[b] == 1
            && Enabled(s', SendPlain(b, 0))
  {
    var i := FindAck(s.slots, a, 0);
    var s1 := Step(s, PeerAck(a));
    StepExact(s, PeerAck(a));
    assert SlotOk(s, i);
    assert AckMatches(s1.slots[i], a);
    assert forall k :: 0 <= k < i ==> s1.slots[k] == s.slots[k];
    StepExact(s1, PeerAck(a));
  }

  /** It takes one command, sent from the initial state, to get there. */
  lemma RepeatedAckReachable(counter: byte)
    ensures var e := SendCommand(3, 1, true);
            var s1 := Step(Init(counter), e);
            var a := Ack(1, counter, true, 0, 0, 0);
            && Enabled(Init(counter), e)
            && !Inv(Step(Step(s1, PeerAck(a)), PeerAck(a)))
  {
    var s := Init(counter);
    InitInv(counter);
    StepExact(s, SendCommand(3, 1, true));
    assert FindFree(s.slots, 0) == 0;
    var s1 := SendCommandStep(s, 3, 1, true);
    var a := Ack(1, counter, true, 0, 0, 0);
    assert AckMatches(s1.slots[0], a);
    RepeatedAckBreaks(s1, a);
  }

  /** Exactly the first `k` slots are taken, and the buffers from `k` on are with their owners. */
  ghost predicate Taken(s: Aps, k: nat) {
    && Inv(s)
    && (forall i :: 0 <= i < ENTRIES ==> (Live(s.slots[i]) <==> i < k))
    && (forall b :: k <= b < POOL_SIZE ==> Held(s, b) == 0)
  }

  lemma {:induction false} FreeIs(slots: seq<Slot>, i: nat, k: nat)
    requires i <= k <= |slots| && forall j :: 0 <= j < |slots| ==> (Live(slots[j]) <==> j < k)
    ensures FindFree(slots, i) == k
    decreases k - i
  {
    if i < k { FreeIs(slots, i + 1, k); }
  }

  lemma TakeNext(s: Aps, k: nat)
    requires Taken(s, k) && k < ENTRIES
    ensures Enabled(s, SendCommand(k, 1, true)) && Taken(Step(s, SendCommand(k, 1, true)), k + 1)
  {
    var e := SendCommand(k, 1, true);
    FreeIs(s.slots, 0, k);
    StepExact(s, e);
    var s' := Step(s, e);
    forall b | k + 1 <= b < POOL_SIZE ensures Held(s', b) == 0 {
      assert Held(s, b) == 0;
      SameHolders(s, s', b, k);
    }
  }

  /** Commands to one peer fill the table: from `k` taken slots a run leads to `n` of them. */
  lemma {:induction false} Fills(s: Aps, k: nat, n: nat) returns (es: seq<Event>)
    requires Taken(s, k) && k <= n <= ENTRIES
    ensures EnabledAll(s, es) && Taken(Run(s, es), n)
    decreases n - k
  {
    es := [];
    if k < n {
      var e := SendCommand(k, 1, true);
      TakeNext(s, k);
      var rest := Fills(Step(s, e), k + 1, n);
      es := [e] + rest;
      assert es[1..] == rest;
    }
  }

  /** From the start, nine commands leave only the last slot free, and ten none; a data frame sent
      then breaks the invariant, as `LastSlotLeaks` and `FullTableDoubleAlarm` say. */
  lemma FullTableReachable(counter: byte, n: nat, req: DataReq) returns (es: seq<Event>)
    requires ENTRIES - 1 <= n <= ENTRIES
    ensures EnabledAll(Init(counter), es)
    ensures var s := Run(Init(counter), es);
            Inv(s) && FindFree(s.slots, 0) == n && Enabled(s, SendData(n, req)) && !Inv(Step(s, SendData(n, req)))
  {
    assert Taken(Init(counter), 0) by { InitInv(counter); }
    es := Fills(Init(counter), 0, n);
    SendBreaks(Run(Init(counter), es), n, req);
  }

  lemma SendBreaks(s: Aps, n: nat, req: DataReq)
    requires Taken(s, n) && ENTRIES - 1 <= n <= ENTRIES
    ensures FindFree(s.slots, 0) == n && Enabled(s, SendData(n, req)) && !Inv(Step(s, SendData(n, req)))
  {
    FreeIs(s.slots, 0, n);
    SendDataExact(s, n, req);
  }

  /** An acknowledgement that claims to come from 0xffff, the address of an empty slot, makes the
      code release the buffer of a slot that has none; in the initial state already. */
  lemma EmptySlotAcked(counter: byte)
    ensures var a := Ack(NO_ADDR, 0, true, 0, 0, 0);
            Step(Init(counter), PeerAck(a)).wild == 1 && !Inv(Step(Init(counter), PeerAck(a)))
  {
    var a := Ack(NO_ADDR, 0, true, 0, 0, 0);
    assert AckMatches(Init(counter).slots[0], a) && FindAck(Init(counter).slots, a, 0) == 0;
  }

  /** A data frame, sent and confirmed by NWK, answered in command format: its buffer is freed and the
      sender never hears of it. */
  lemma WrongFormatReachable(counter: byte, req: DataReq)
    ensures var s0, a := Init(counter), Ack(req.dst, counter, true, 0, 0, 0);
            var es := [SendData(3, req), NwkConfirm(3), PeerAck(a)];
            && EnabledAll(s0, es) && SafeAll(s0, es)
            && Run(s0, es).outcomes == [Outcome(3, true, false, Ok)]
            && !KindOk(Run(s0, es).outcomes[0])
  {
    var s0, a := Init(counter), Ack(req.dst, counter, true, 0, 0, 0);
    var e1, e2, e3 := SendData(3, req), NwkConfirm(3), PeerAck(a);
    InitInv(counter);
    var s1 := SentFirst(s0, req);
    StepExact(s1, e2);
    var s2 := Step(s1, e2);
    assert FindBuf(s1.slots, 3, 0) == 0;
    assert FindAck(s2.slots, a, 0) == 0;
    var s3 := Step(s2, e3);
    assert Leads(s2, [e3], s3) by { LeadsOn(s2, e3, s3, [], [e3], s3); }
    assert Leads(s1, [e2, e3], s3) by { LeadsOn(s1, e2, s2, [e3], [e2, e3], s3); }
    LeadsOn(s0, e1, s1, [e2, e3], [e1, e2, e3], s3);
  }

  /** A guarded run from `s` to `end`. */
  ghost predicate Leads(s: Aps, es: seq<Event>, end: Aps) {
    Shape(s) && EnabledAll(s, es) && SafeAll(s, es) && Run(s, es) == end
  }

  lemma LeadsOn(s: Aps, e: Event, next: Aps, es: seq<Event>, all: seq<Event>, end: Aps)
    requires Shape(s) && Enabled(s, e) && Safe(s, e) && next == Step(s, e) && Leads(next, es, end) && all == [e] + es
    ensures Leads(s, all, end)
  {
    assert all[0] == e && all[1..] == es;
  }

  lemma SentFirst(s: Aps, req: DataReq) returns (s': Aps)
    requires Inv(s) && FindFree(s.slots, 0) == 0 && Held(s, 3) == 0
    ensures Enabled(s, SendData(3, req)) && s' == Step(s, SendData(3, req)) && Inv(s')
    ensures s'.slots[0].addr == req.dst && s'.slots[0].counter == s.counter && s'.slots[0].state == NotConfirmed
    ensures s'.slots[0].buf == 3 && s'.nwk[3] == 1 && s'.fc[3] == DataFc(DELIVERY_UNICAST, true) && s'.outcomes == s.outcomes
  {
    s' := Step(s, SendData(3, req));
    StepExact(s, SendData(3, req));
  }
}
