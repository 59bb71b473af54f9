/** Delivery of group-addressed frames to every endpoint of the group (aps/aps_main.c, aps/aps_bind.c). */
module GroupDelivery {
  import opened Types

  const GROUP_TABLE_SIZE: nat := 16
  const ENDPOINTS_IN_GROUP: nat := 8
  const UP_Q_SIZE: nat := 8

  datatype Group = Group(addr: u16, endpoints: seq<byte>)

  /** A received frame: its buffer, its group, and the contents that are copied for each endpoint. */
  datatype Frame = Frame(buf: nat, addr: u16, contents: seq<byte>)

  // ---------------------------------------------------------------- the group table

  ghost predicate TableOk(groups: seq<Group>)
  {
    && |groups| <= GROUP_TABLE_SIZE
    && (forall i, j :: 0 <= i < j < |groups| ==> groups[i].addr != groups[j].addr)
    && (forall i :: 0 <= i < |groups| ==> 0 < |groups[i].endpoints| <= ENDPOINTS_IN_GROUP && NoDup(groups[i].endpoints))
  }

  /** The endpoints a group address stands for. */
  function Endpoints(groups: seq<Group>, addr: u16): (r: seq<byte>)
  {
    if groups == [] then []
    else if groups[0].addr == addr then groups[0].endpoints
    else Endpoints(groups[1..], addr)
  }

  /** `Endpoints` finds the one entry with the address. */
  lemma {:induction false} EndpointsAt(groups: seq<Group>, addr: u16, k: nat)
    requires k <= |groups| && (forall i :: 0 <= i < k ==> groups[i].addr != addr)
    requires k < |groups| ==> groups[k].addr == addr
    ensures Endpoints(groups, addr) == if k < |groups| then groups[k].endpoints else []
  {
    if k > 0 {
      EndpointsAt(groups[1..], addr, k - 1);
    }
  }

  /** Changing one entry, or appending one, changes the meaning of that address alone. */
  lemma {:induction false} OnlyThatGroup(groups: seq<Group>, groups': seq<Group>, k: nat, addr: u16)
    requires k <= |groups| && |groups'| == (if k == |groups| then k + 1 else |groups|)
    requires groups'[..k] == groups[..k] && (k < |groups| ==> groups'[k + 1..] == groups[k + 1..])
    requires groups'[k].addr != addr && (k < |groups| ==> groups[k].addr != addr)
    ensures Endpoints(groups', addr) == Endpoints(groups, addr)
  {
    if k > 0 {
      assert groups'[0] == groups'[..k][0] == groups[..k][0];
      assert groups'[1..][..k - 1] == groups'[..k][1..] && groups[1..][..k - 1] == groups[..k][1..];
      OnlyThatGroup(groups[1..], groups'[1..], k - 1, addr);
    } else if groups != [] {
      assert groups'[1..] == groups[1..];
    }
  }

  lemma EndpointAdded(groups: seq<Group>, k: nat, endpoint: byte)
    requires TableOk(groups) && k < |groups| && |groups[k].endpoints| < ENDPOINTS_IN_GROUP && endpoint !in groups[k].endpoints
    ensures TableOk(groups[k := Group(groups[k].addr, groups[k].endpoints + [endpoint])])
  {
    assert NoDup(groups[k].endpoints + [endpoint]);
  }

  lemma GroupAdded(groups: seq<Group>, addr: u16, endpoint: byte)
    requires TableOk(groups) && |groups| < GROUP_TABLE_SIZE && forall i :: 0 <= i < |groups| ==> groups[i].addr != addr
    ensures TableOk(groups + [Group(addr, [endpoint])])
  {
  }

  /** An added endpoint of a group comes after those it had. */
  ghost predicate Grown(groups: seq<Group>, groups': seq<Group>)
  {
    forall a :: Endpoints(groups, a) <= Endpoints(groups', a)
  }

  // ---------------------------------------------------------------- the pump as a state machine

  /** `active` is `active_pass_up_buf`, `handle` its endpoint iterator, `queue` is `pass_up_q` and
      `pending` the number of `zb_aps_pass_group_msg_up` calls on their way. The rest is history:
      frames accepted and dropped, frames finished with the endpoints their group then had, the
      indications made, and the buffers freed. */
  datatype Pump = Pump(
    groups: seq<Group>, active: Option<Frame>, handle: nat, queue: seq<Frame>, pending: nat,
    accepted: seq<Frame>, dropped: seq<Frame>, finished: seq<(Frame, seq<byte>)>,
    indicated: seq<(Frame, byte)>, freed: seq<Frame>)

  datatype Event = Arrive(frame: Frame) | Continue | NewTable(groups: seq<Group>)

  function Start(groups: seq<Group>): Pump
  {
    Pump(groups, None, 0, [], 0, [], [], [], [], [])
  }

  /** `zb_aps_pass_up_group_buf`. */
  function ArriveStep(p: Pump, f: Frame): Pump
  {
    if |p.queue| == UP_Q_SIZE then p.(dropped := p.dropped + [f], freed := p.freed + [f])
    else if p.active.None? then p.(active := Some(f), handle := 0, pending := p.pending + 1, accepted := p.accepted + [f])
    else p.(queue := p.queue + [f], accepted := p.accepted + [f])
  }

  /** `zb_aps_pass_group_msg_up`. */
  function ContinueStep(p: Pump): Pump
    requires p.active.Some? && p.pending > 0
  {
    var f, ends := p.active.value, Endpoints(p.groups, p.active.value.addr);
    if p.handle < |ends| then
      p.(indicated := p.indicated + [(f, ends[p.handle])], handle := p.handle + 1)
    else
      var q := p.(freed := p.freed + [f], finished := p.finished + [(f, ends)], handle := 0);
      if p.queue == [] then q.(active := None, pending := p.pending - 1)
      else q.(active := Some(p.queue[0]), queue := p.queue[1..])
  }

  function Indications(f: Frame, ends: seq<byte>): (r: seq<(Frame, byte)>)
    ensures |r| == |ends| && forall i :: 0 <= i < |r| ==> r[i] == (f, ends[i])
  {
    seq(|ends|, i requires 0 <= i < |ends| => (f, ends[i]))
  }

  function AllIndications(done: seq<(Frame, seq<byte>)>): seq<(Frame, byte)>
  {
    if done == [] then []
    else AllIndications(done[..|done| - 1]) + Indications(done[|done| - 1].0, done[|done| - 1].1)
  }

  function Frames(done: seq<(Frame, seq<byte>)>): (r: seq<Frame>)
    ensures |r| == |done| && forall i :: 0 <= i < |r| ==> r[i] == done[i].0
  {
    seq(|done|, i requires 0 <= i < |done| => done[i].0)
  }

  function Current(p: Pump): seq<Frame>
  {
    if p.active.Some? then [p.active.value] else []
  }

  /** Frames are finished in the order they were accepted and none is lost; every finished frame was
      indicated once to each endpoint its group had, in table order, and nothing else was indicated
      but the part of the active frame before `handle`; finished and dropped frames are freed once;
      and one continuation is on its way exactly while a frame is active. */
  ghost predicate Inv(p: Pump)
  {
    && |p.queue| <= UP_Q_SIZE && (p.active.None? ==> p.queue == [])
    && p.pending == (if p.active.Some? then 1 else 0)
    && InOrder(p) && FreedOnce(p) && Indicated(p) && WithinTable(p)
  }

  ghost predicate InOrder(p: Pump) { p.accepted == Frames(p.finished) + Current(p) + p.queue }

  ghost predicate FreedOnce(p: Pump) { multiset(p.freed) == multiset(Frames(p.finished)) + multiset(p.dropped) }

  ghost predicate Indicated(p: Pump) {
    && (p.active.Some? ==> p.handle <= |Endpoints(p.groups, p.active.value.addr)|)
    && p.indicated == AllIndications(p.finished) + Sofar(p)
  }

  /** Groups only grow, so a finished frame's endpoints are the first ones its group has now. */
  ghost predicate WithinTable(p: Pump) {
    forall i :: 0 <= i < |p.finished| ==> p.finished[i].1 <= Endpoints(p.groups, p.finished[i].0.addr)
  }

  function Sofar(p: Pump): seq<(Frame, byte)>
  {
    if p.active.Some? && p.handle <= |Endpoints(p.groups, p.active.value.addr)|
    then Indications(p.active.value, Endpoints(p.groups, p.active.value.addr)[..p.handle])
    else []
  }

  ghost predicate Enabled(p: Pump, e: Event)
  {
    match e
    case Arrive(_) => true
    case Continue => p.pending > 0
    case NewTable(groups) => Grown(p.groups, groups)
  }

  ghost function Step(p: Pump, e: Event): Pump
    requires Inv(p) && Enabled(p, e)
  {
    match e
    case Arrive(f) => ArriveStep(p, f)
    case Continue => ContinueStep(p)
    case NewTable(groups) => p.(groups := groups)
  }

  lemma ArriveInOrder(p: Pump, f: Frame)
    requires InOrder(p) && (p.active.None? ==> p.queue == [])
    ensures InOrder(ArriveStep(p, f))
  {
    assert ArriveStep(p, f).finished == p.finished;
  }

  lemma ArriveFreed(p: Pump, f: Frame)
    requires FreedOnce(p)
    ensures FreedOnce(ArriveStep(p, f))
  {
    assert ArriveStep(p, f).finished == p.finished;
  }

  lemma ArriveIndicated(p: Pump, f: Frame)
    requires Indicated(p)
    ensures Indicated(ArriveStep(p, f))
  {
    var q := ArriveStep(p, f);
    if |p.queue| < UP_Q_SIZE && p.active.None? {
      NothingYet(q);
      assert Sofar(p) == [];
    } else {
      assert Sofar(q) == Sofar(p);
    }
  }

  lemma {:induction false} ArriveKeeps(p: Pump, f: Frame)
    requires Inv(p)
    ensures Inv(ArriveStep(p, f))
  {
    ArriveInOrder(p, f);
    ArriveFreed(p, f);
    ArriveIndicated(p, f);
    assert WithinTable(ArriveStep(p, f));
  }

  lemma {:induction false} IndicateKeeps(p: Pump)
    requires Inv(p) && p.active.Some? && p.handle < |Endpoints(p.groups, p.active.value.addr)|
    ensures Inv(ContinueStep(p))
  {
    var q := ContinueStep(p);
    var f, ends := p.active.value, Endpoints(p.groups, p.active.value.addr);
    assert Sofar(q) == Sofar(p) + [(f, ends[p.handle])];
    assert q.indicated == AllIndications(q.finished) + Sofar(q);
  }

  /** A finished frame joins the finished ones, and its indications theirs. */
  lemma FinishedAppend(done: seq<(Frame, seq<byte>)>, f: Frame, ends: seq<byte>)
    ensures Frames(done + [(f, ends)]) == Frames(done) + [f]
    ensures AllIndications(done + [(f, ends)]) == AllIndications(done) + Indications(f, ends)
  {
    assert (done + [(f, ends)])[..|done|] == done;
  }

  /** Nothing of the next frame, if there is one, has been indicated yet. */
  lemma NothingYet(q: Pump)
    requires q.handle == 0
    ensures Sofar(q) == []
  {
  }

  /** The active frame has been indicated to all endpoints of its group. */
  ghost predicate AtEnd(p: Pump) {
    p.active.Some? && p.pending > 0 && p.handle == |Endpoints(p.groups, p.active.value.addr)|
  }

  lemma FinishInOrder(p: Pump)
    requires InOrder(p) && AtEnd(p)
    ensures InOrder(ContinueStep(p))
  {
    var q := ContinueStep(p);
    var f, ends := p.active.value, Endpoints(p.groups, p.active.value.addr);
    FinishedAppend(p.finished, f, ends);
    assert Current(q) + q.queue == p.queue;
    assert Frames(q.finished) + Current(q) + q.queue == Frames(p.finished) + [f] + (Current(q) + q.queue);
  }

  lemma FinishFreed(p: Pump)
    requires FreedOnce(p) && AtEnd(p)
    ensures FreedOnce(ContinueStep(p))
  {
    FinishedAppend(p.finished, p.active.value, Endpoints(p.groups, p.active.value.addr));
  }

  lemma FinishIndicated(p: Pump)
    requires Indicated(p) && AtEnd(p)
    ensures Indicated(ContinueStep(p))
  {
    var q := ContinueStep(p);
    var f, ends := p.active.value, Endpoints(p.groups, p.active.value.addr);
    assert ends[..p.handle] == ends;
    FinishedAppend(p.finished, f, ends);
    NothingYet(q);
    assert q.indicated == AllIndications(q.finished) + [];
  }

  lemma FinishWithin(p: Pump)
    requires WithinTable(p) && AtEnd(p)
    ensures WithinTable(ContinueStep(p))
  {
  }

  lemma {:induction false} FinishKeeps(p: Pump)
    requires Inv(p) && AtEnd(p)
    ensures Inv(ContinueStep(p))
  {
    FinishInOrder(p);
    FinishFreed(p);
    FinishIndicated(p);
    FinishWithin(p);
  }

  lemma {:induction false} TableKeeps(p: Pump, groups: seq<Group>)
    requires Inv(p) && Grown(p.groups, groups)
    ensures Inv(p.(groups := groups))
  {
    var q := p.(groups := groups);
    if p.active.Some? {
      var a := p.active.value.addr;
      assert Endpoints(groups, a)[..p.handle] == Endpoints(p.groups, a)[..p.handle];
    }
    forall i | 0 <= i < |q.finished| ensures q.finished[i].1 <= Endpoints(groups, q.finished[i].0.addr) {
      assert p.finished[i].1 <= Endpoints(p.groups, p.finished[i].0.addr) <= Endpoints(groups, p.finished[i].0.addr);
    }
  }

  /** Every step keeps the delivery invariant; in particular a continuation always finds an active frame. */
  lemma StepKeeps(p: Pump, e: Event)
    requires Inv(p) && Enabled(p, e)
    ensures Inv(Step(p, e))
  {
    match e
    case Arrive(f) => ArriveKeeps(p, f);
    case Continue => if p.handle < |Endpoints(p.groups, p.active.value.addr)| { IndicateKeeps(p); } else { FinishKeeps(p); }
    case NewTable(groups) => TableKeeps(p, groups);
  }

  /** A run: states joined by enabled events. */
  ghost predicate IsRun(run: seq<Pump>, events: seq<Event>)
  {
    && |run| == |events| + 1 && Inv(run[0])
    && forall i {:trigger events[i]} :: 0 <= i < |events| ==>
         Inv(run[i]) ==> Enabled(run[i], events[i]) && run[i + 1] == Step(run[i], events[i])
  }

  lemma {:induction false} EveryRun(run: seq<Pump>, events: seq<Event>, k: nat)
    requires IsRun(run, events) && k < |run|
    ensures Inv(run[k])
  {
    if k > 0 {
      EveryRun(run, events, k - 1);
      assert Enabled(run[k - 1], events[k - 1]);
      StepKeeps(run[k - 1], events[k - 1]);
    }
  }

  // ---------------------------------------------------------------- with the table unchanged

  /** What delivering `frames` in order amounts to under a fixed group table. */
  function Delivery(groups: seq<Group>, frames: seq<Frame>): seq<(Frame, byte)>
  {
    if frames == [] then []
    else Delivery(groups, frames[..|frames| - 1])
         + Indications(frames[|frames| - 1], Endpoints(groups, frames[|frames| - 1].addr))
  }

  /** Each finished frame went to exactly the endpoints the table `groups` has. */
  ghost predicate Under(p: Pump, groups: seq<Group>)
  {
    p.groups == groups
    && forall i :: 0 <= i < |p.finished| ==> p.finished[i].1 == Endpoints(groups, p.finished[i].0.addr)
  }

  lemma {:induction false} UnderKeeps(p: Pump, e: Event, groups: seq<Group>)
    requires Inv(p) && Enabled(p, e) && Under(p, groups) && !e.NewTable?
    ensures Under(Step(p, e), groups)
  {
  }

  lemma {:induction false} UnderDelivers(groups: seq<Group>, done: seq<(Frame, seq<byte>)>)
    requires forall i :: 0 <= i < |done| ==> done[i].1 == Endpoints(groups, done[i].0.addr)
    ensures AllIndications(done) == Delivery(groups, Frames(done))
  {
    if done != [] {
      var n := |done| - 1;
      UnderDelivers(groups, done[..n]);
      assert Frames(done)[..n] == Frames(done[..n]);
    }
  }

  lemma UnderSofar(p: Pump, groups: seq<Group>)
    requires Inv(p) && Under(p, groups)
    ensures |p.finished| <= |p.accepted|
    ensures p.indicated == Delivery(groups, p.accepted[..|p.finished|]) + Sofar(p)
  {
    UnderDelivers(groups, p.finished);
    assert p.accepted[..|p.finished|] == Frames(p.finished);
  }

  lemma {:induction false} UnderRun(run: seq<Pump>, events: seq<Event>, groups: seq<Group>, k: nat)
    requires IsRun(run, events) && run[0] == Start(groups) && k < |run|
    requires forall i :: 0 <= i < |events| ==> !events[i].NewTable?
    ensures Under(run[k], groups)
  {
    if k > 0 {
      UnderRun(run, events, groups, k - 1);
      assert Inv(run[k - 1]) by { EveryRun(run, events, k - 1); }
      assert Enabled(run[k - 1], events[k - 1]);
      UnderKeeps(run[k - 1], events[k - 1], groups);
    }
  }

  /** In a run from the start whose group table does not change, at every moment the indications are
      the delivery of the frames accepted first, followed by what the active one has had so far. */
  lemma {:induction false} UnchangedTable(run: seq<Pump>, events: seq<Event>, groups: seq<Group>, k: nat)
    requires IsRun(run, events) && run[0] == Start(groups) && k < |run|
    requires forall i :: 0 <= i < |events| ==> !events[i].NewTable?
    ensures Under(run[k], groups) && |run[k].finished| <= |run[k].accepted|
    ensures run[k].indicated == Delivery(groups, run[k].accepted[..|run[k].finished|]) + Sofar(run[k])
  {
    EveryRun(run, events, k);
    UnderRun(run, events, groups, k);
    UnderSofar(run[k], groups);
  }

  /** Calls of the pump still needed before nothing is active. */
  function Work(groups: seq<Group>, frames: seq<Frame>): nat
  {
    if frames == [] then 0 else |Endpoints(groups, frames[0].addr)| + 1 + Work(groups, frames[1..])
  }

  function WorkLeft(p: Pump): int
  {
    if p.active.None? then 0 else Work(p.groups, Current(p) + p.queue) - p.handle
  }

  /** `n` continuations in a row, as long as one is on its way. */
  function Drain(p: Pump, n: nat): Pump
    decreases n
  {
    if n == 0 || p.active.None? || p.pending == 0 then p else Drain(ContinueStep(p), n - 1)
  }

  lemma {:induction false} ContinueWorks(p: Pump)
    requires Inv(p) && p.active.Some?
    ensures WorkLeft(ContinueStep(p)) == WorkLeft(p) - 1 && WorkLeft(p) > 0
  {
    var q := ContinueStep(p);
    var all := Current(p) + p.queue;
    assert all[1..] == p.queue;
    if p.handle < |Endpoints(p.groups, p.active.value.addr)| {
      assert Current(q) + q.queue == all;
    } else {
      assert Current(q) + q.queue == p.queue;
    }
  }

  /** With nothing active, everything accepted has been delivered and freed. */
  lemma Idle(p: Pump, groups: seq<Group>)
    requires Inv(p) && Under(p, groups) && p.active.None?
    ensures p.indicated == Delivery(groups, p.accepted)
    ensures multiset(p.freed) == multiset(p.accepted) + multiset(p.dropped)
  {
    UnderDelivers(groups, p.finished);
    assert Frames(p.finished) == p.accepted;
  }

  /** One continuation does one unit of work, and nothing is accepted or dropped. */
  lemma ContinueProgress(p: Pump, groups: seq<Group>, n: nat) returns (q: Pump)
    requires Inv(p) && Under(p, groups) && 0 < n <= WorkLeft(p)
    ensures Inv(q) && Under(q, groups) && q.accepted == p.accepted && q.dropped == p.dropped
    ensures WorkLeft(q) == WorkLeft(p) - 1 && Drain(p, n) == Drain(q, n - 1)
  {
    q := ContinueStep(p);
    ContinueWorks(p);
    UnderKeeps(p, Continue, groups);
    StepKeeps(p, Continue);
  }

  lemma {:induction false} DrainWorks(p: Pump, groups: seq<Group>, n: nat)
    requires Inv(p) && Under(p, groups) && n <= WorkLeft(p)
    ensures var q := Drain(p, n);
            Inv(q) && Under(q, groups) && q.accepted == p.accepted && q.dropped == p.dropped && WorkLeft(q) == WorkLeft(p) - n
    decreases n
  {
    if n > 0 {
      var next := ContinueProgress(p, groups, n);
      DrainWorks(next, groups, n - 1);
    }
  }

  /** When no more frames arrive, `WorkLeft` continuations, and no fewer, finish everything: every
      accepted frame is then freed, and the indications are exactly the delivery of the accepted
      frames in order. */
  lemma {:induction false} Drains(p: Pump, n: nat)
    requires Inv(p) && Under(p, p.groups) && n <= WorkLeft(p)
    ensures var q := Drain(p, n);
            && (q.active.None? <==> n == WorkLeft(p))
            && (q.active.None? ==>
                  q.indicated == Delivery(p.groups, p.accepted)
                  && multiset(q.freed) == multiset(p.accepted) + multiset(p.dropped))
  {
    var q := Drain(p, n);
    DrainWorks(p, p.groups, n);
    if q.active.Some? {
      ContinueWorks(q);
    } else {
      Idle(q, p.groups);
    }
  }

  // ---------------------------------------------------------------- what becomes of a frame

  /** A frame that arrives while fewer than eight wait is delivered behind those accepted before it, as soon
      as the work is done; one that finds eight waiting is freed at once and never delivered. */
  lemma ArrivalAnswers(p: Pump, f: Frame, q: Pump)
    requires Inv(p) && Under(p, p.groups) && q == Step(p, Arrive(f))
    ensures WorkLeft(q) >= 0
    ensures Drain(q, WorkLeft(q)).indicated == Delivery(p.groups, if |p.queue| < 8 then p.accepted + [f] else p.accepted)
    ensures |p.queue| >= 8 ==> q == p.(freed := p.freed + [f], dropped := p.dropped + [f])
  {
    ArriveKeeps(p, f);
    UnderKeeps(p, Arrive(f), p.groups);
    DrainsAll(q);
    ArriveAccepts(p, f);
  }

  /** What an arrival accepts, drops and frees. */
  lemma ArriveAccepts(p: Pump, f: Frame)
    requires Inv(p)
    ensures var q := ArriveStep(p, f);
            && q.groups == p.groups && q.indicated == p.indicated && q.finished == p.finished
            && q.accepted == (if |p.queue| < 8 then p.accepted + [f] else p.accepted)
            && (if |p.queue| < 8 then q.freed == p.freed && q.dropped == p.dropped
                else q == p.(freed := p.freed + [f], dropped := p.dropped + [f]))
  {
  }

  lemma DrainsAll(q: Pump)
    requires Inv(q) && Under(q, q.groups)
    ensures WorkLeft(q) >= 0 && Drain(q, WorkLeft(q)).indicated == Delivery(q.groups, q.accepted)
  {
    if q.active.Some? { ContinueWorks(q); }
    Drains(q, WorkLeft(q));
  }

  lemma {:induction false} IndicatedOnce(g: Frame, ends: seq<byte>, f: Frame, endpoint: byte)
    requires NoDup(ends)
    ensures multiset(Indications(g, ends))[(f, endpoint)] == if f == g && endpoint in ends then 1 else 0
  {
    if ends != [] {
      var n := |ends| - 1;
      assert NoDup(ends[..n]);
      IndicatedOnce(g, ends[..n], f, endpoint);
      assert Indications(g, ends) == Indications(g, ends[..n]) + [(g, ends[n])];
      assert ends == ends[..n] + [ends[n]];
    }
  }

  /** Each endpoint of its group gets a frame once for every time it was accepted, and no other endpoint
      gets it. */
  lemma {:induction false} DeliveredOnce(groups: seq<Group>, frames: seq<Frame>, f: Frame, endpoint: byte)
    requires TableOk(groups)
    ensures multiset(Delivery(groups, frames))[(f, endpoint)]
            == if endpoint in Endpoints(groups, f.addr) then multiset(frames)[f] else 0
  {
    if frames != [] {
      var n := |frames| - 1;
      DeliveredOnce(groups, frames[..n], f, endpoint);
      DistinctEndpoints(groups, frames[n].addr);
      IndicatedOnce(frames[n], Endpoints(groups, frames[n].addr), f, endpoint);
      assert frames == frames[..n] + [frames[n]];
    }
  }

  lemma {:induction false} DistinctEndpoints(groups: seq<Group>, addr: u16)
    requires TableOk(groups)
    ensures NoDup(Endpoints(groups, addr))
  {
    if groups != [] {
      assert forall i :: 0 <= i < |groups[1..]| ==> groups[1..][i] == groups[i + 1];
      DistinctEndpoints(groups[1..], addr);
    }
  }

  // ---------------------------------------------------------------- the program

  class GroupLayer {
    /** `groups[0..n_groups]`, each entry with its `endpoints[0..n_endpoints]`. */
    var groups: seq<Group>
    var active: Option<Frame>
    var handle: nat
    var queue: seq<Frame>
    /** Requests to run the pump: made through the scheduler, or waiting for an in-buffer. */
    var pending: nat
    var indicated: seq<(Frame, byte)>
    var freed: seq<Frame>
    ghost var accepted: seq<Frame>
    ghost var dropped: seq<Frame>
    ghost var finished: seq<(Frame, seq<byte>)>

    ghost function State(): Pump
      reads this
    {
      Pump(groups, active, handle, queue, pending, accepted, dropped, finished, indicated, freed)
    }

    constructor ()
      ensures State() == Start([])
    {
      groups, active, handle, queue, pending := [], None, 0, [], 0;
      indicated, freed, accepted, dropped, finished := [], [], [], [], [];
    }

    /** The search for a group by address that both operations start with. */
    method FindGroup(addr: u16) returns (i: nat)
      ensures i <= |groups| && (forall j :: 0 <= j < i ==> groups[j].addr != addr)
      ensures i < |groups| ==> groups[i].addr == addr
      ensures Endpoints(groups, addr) == if i < |groups| then groups[i].endpoints else []
    {
      i := 0;
      while i < |groups| && groups[i].addr != addr
        invariant i <= |groups| && (forall j :: 0 <= j < i ==> groups[j].addr != addr)
      {
        i := i + 1;
      }
      EndpointsAt(groups, addr, i);
    }

    /** `zb_aps_pass_up_group_buf`. */
    method PassUpGroupBuf(frame: Frame)
      modifies this
      ensures State() == ArriveStep(old(State()), frame)
    {
      if |queue| == UP_Q_SIZE {
        freed := freed + [frame];
        dropped := dropped + [frame];
      } else {
        accepted := accepted + [frame];
        if active.None? {
          handle := 0;
          active := Some(frame);
          pending := pending + 1;
        } else {
          queue := queue + [frame];
        }
      }
    }

    /** `zb_aps_pass_group_msg_up`. */
    method PassGroupMsgUp()
      requires active.Some? && pending > 0
      modifies this
      ensures State() == ContinueStep(old(State()))
    {
      var frame := active.value;
      var i := FindGroup(frame.addr);
      pending := pending - 1;
      if i == |groups| || handle >= |groups[i].endpoints| {
        freed := freed + [frame];
        finished := finished + [(frame, Endpoints(groups, frame.addr))];
        handle := 0;
        if queue != [] {
          active := Some(queue[0]);
          queue := queue[1..];
          pending := pending + 1;
        } else {
          active := None;
        }
      } else {
        indicated := indicated + [(frame, groups[i].endpoints[handle])];
        handle := handle + 1;
        pending := pending + 1;
      }
    }

    /** `zb_apsme_add_group_request`: `full` is ZB_APS_STATUS_TABLE_FULL. */
    method AddGroupRequest(addr: u16, endpoint: byte) returns (full: bool)
      requires TableOk(groups)
      modifies this`groups
      ensures TableOk(groups) && Grown(old(groups), groups)
      ensures forall a :: a != addr ==> Endpoints(groups, a) == Endpoints(old(groups), a)
      ensures endpoint in Endpoints(groups, addr) <==> !full
      ensures var was := Endpoints(old(groups), addr);
              && (full <==> endpoint !in was && (|was| == ENDPOINTS_IN_GROUP || (was == [] && |old(groups)| == GROUP_TABLE_SIZE)))
              && (if full || endpoint in was then groups == old(groups) else Endpoints(groups, addr) == was + [endpoint])
    {
      full := false;
      var i := FindGroup(addr);
      ghost var g0 := groups;
      if i < |groups| {
        var j := FindEndpoint(groups[i].endpoints, endpoint);
        if j < |groups[i].endpoints| {
          return;
        }
        if j < ENDPOINTS_IN_GROUP {
          EndpointAdded(groups, i, endpoint);
          groups := groups[i := Group(addr, groups[i].endpoints + [endpoint])];
        } else {
          full := true;
        }
      } else if i < GROUP_TABLE_SIZE {
        GroupAdded(groups, addr, endpoint);
        groups := groups + [Group(addr, [endpoint])];
      } else {
        full := true;
      }
      if !full {
        EndpointsAt(groups, addr, i);
        forall a | a != addr ensures Endpoints(groups, a) == Endpoints(g0, a) {
          OnlyThatGroup(g0, groups, i, a);
        }
      }
    }
  }

  /** The inner scan of `zb_apsme_add_group_request`. */
  method FindEndpoint(ends: seq<byte>, endpoint: byte) returns (j: nat)
    ensures j <= |ends| && (j < |ends| <==> endpoint in ends)
  {
    j := 0;
    while j < |ends|
      invariant j <= |ends| && endpoint !in ends[..j]
    {
      if ends[j] == endpoint {
        return;
      }
      j := j + 1;
    }
  }
}
