/** What the timer queue of common/zb_scheduler.c promises, as a machine over whole runs.
    An alarm carries its unwrapped run time `due`; every decision the code takes is stated, as in
    the code, on the wrapped 16-bit values. */
module AlarmSpec {
  import opened Types
  import opened ClockTime

  const SCHEDULER_Q_SIZE: nat := 16
  const ALARM_ANY_PARAM: byte := 255
  const ALARM_ALL_CB: byte := 254

  datatype Alarm = Alarm(func: nat, param: byte, due: int)

  /** `a`'s stored run time compares as not before `b`'s. */
  predicate NotBefore(a: int, b: int) { TimeGe(Wrap(a), Wrap(b)) }

  // ---------------------------------------------------------------- insertion

  /** How far the scan for the insertion point walks. */
  function Scan(q: seq<Alarm>, due: int): (n: nat)
    ensures n <= |q|
  {
    if q == [] || !NotBefore(due, q[0].due) then 0 else 1 + Scan(q[1..], due)
  }

  /** The place a new alarm takes. When the scan stops on the head itself, the element "before" it
      is the tail, because the head's back pointer holds the tail. */
  function Place(q: seq<Alarm>, due: int): (n: nat)
    ensures n <= |q|
  {
    if q == [] || NotBefore(q[0].due, due) then 0
    else if Scan(q, due) == 0 then |q|
    else Scan(q, due)
  }

  function Insert(q: seq<Alarm>, a: Alarm): seq<Alarm> {
    InsertAt(q, Place(q, a.due), a)
  }

  // ---------------------------------------------------------------- cancellation

  predicate Matches(a: Alarm, func: nat, param: byte) {
    a.func == func && (param == ALARM_ANY_PARAM || param == ALARM_ALL_CB || param == a.param)
  }

  /** The alarms a cancel request takes out of `q`, in queue order. */
  function Hit(q: seq<Alarm>, func: nat, param: byte): seq<Alarm> {
    if q == [] then []
    else if !Matches(q[0], func, param) then Hit(q[1..], func, param)
    else if param == ALARM_ALL_CB then [q[0]] + Hit(q[1..], func, param)
    else [q[0]]
  }

  /** The alarms it leaves, in queue order. */
  function Missed(q: seq<Alarm>, func: nat, param: byte): seq<Alarm> {
    if q == [] then []
    else if !Matches(q[0], func, param) then [q[0]] + Missed(q[1..], func, param)
    else if param == ALARM_ALL_CB then Missed(q[1..], func, param)
    else q[1..]
  }

  // ---------------------------------------------------------------- the machine

  /** `fired` pairs each alarm with the tick at which its callback was started. */
  datatype Sched = Sched(
    queue: seq<Alarm>, running: Option<Alarm>, free: nat, clock: int, sampled: int,
    accepted: seq<Alarm>, fired: seq<(Alarm, int)>, cancelled: seq<Alarm>)

  datatype Event =
    | Tick(ticks: nat)
    | Schedule(func: nat, param: byte, after: u16)
    | Cancel(func: nat, param: byte)
    | Sample
    | Begin
    | End

  predicate Due(s: Sched) {
    s.queue != [] && NotBefore(s.sampled, s.queue[0].due)
  }

  predicate Enabled(s: Sched, e: Event) {
    match e
    case Sample => s.running.None?
    case Begin => s.running.None? && Due(s)
    case End => s.running.Some?
    case _ => true
  }

  /** A free entry now holds `a`, and `queue` is the queue with it. */
  function Accept(s: Sched, a: Alarm, queue: seq<Alarm>): Sched
    requires s.free > 0
  {
    s.(free := s.free - 1, queue := queue, accepted := s.accepted + [a])
  }

  function Scheduled(s: Sched, a: Alarm): Sched {
    if s.free > 0 then Accept(s, a, Insert(s.queue, a)) else s
  }

  function Cancelled(s: Sched, func: nat, param: byte): Sched {
    s.(free := s.free + |Hit(s.queue, func, param)|,
       queue := Missed(s.queue, func, param),
       cancelled := s.cancelled + Hit(s.queue, func, param))
  }

  function Begun(s: Sched): Sched
    requires s.queue != []
  {
    s.(running := Some(s.queue[0]), queue := s.queue[1..], fired := s.fired + [(s.queue[0], s.clock)])
  }

  function Ended(s: Sched): Sched { s.(running := None, free := s.free + 1) }

  function Step(s: Sched, e: Event): Sched
    requires Enabled(s, e)
  {
    match e
    case Tick(ticks) => s.(clock := s.clock + ticks)
    case Schedule(func, param, after) => Scheduled(s, Alarm(func, param, s.clock + after))
    case Cancel(func, param) => Cancelled(s, func, param)
    case Sample => s.(sampled := s.clock)
    case Begin => Begun(s)
    case End => Ended(s)
  }

  function Init(clock: int): Sched {
    Sched([], None, SCHEDULER_Q_SIZE, clock, clock, [], [], [])
  }

  predicate EnabledAll(s: Sched, es: seq<Event>)
    decreases |es|
  {
    es == [] || (Enabled(s, es[0]) && EnabledAll(Step(s, es[0]), es[1..]))
  }

  function Run(s: Sched, es: seq<Event>): Sched
    requires EnabledAll(s, es)
    decreases |es|
  {
    if es == [] then s else Run(Step(s, es[0]), es[1..])
  }

  // ---------------------------------------------------------------- the documented range rule

  /** Times compared by the event lie less than half the clock range apart, as
      include/zb_time.h asks of its callers. */
  predicate InRange(s: Sched, e: Event) {
    match e
    case Schedule(_, _, after) =>
      s.free == 0 || forall i :: 0 <= i < |s.queue| ==> Close(s.queue[i].due, s.clock + after)
    case Begin => s.queue != [] ==> Close(s.sampled, s.queue[0].due)
    case _ => true
  }

  ghost predicate InRangeAll(s: Sched, es: seq<Event>)
    requires EnabledAll(s, es)
    decreases |es|
  {
    es == [] || (InRange(s, es[0]) && InRangeAll(Step(s, es[0]), es[1..]))
  }

  // ---------------------------------------------------------------- what every run keeps

  ghost predicate Sorted(q: seq<Alarm>) {
    forall i, j :: 0 <= i < j < |q| ==> q[i].due <= q[j].due
  }

  ghost predicate NeverEarly(fired: seq<(Alarm, int)>) {
    forall i :: 0 <= i < |fired| ==> fired[i].0.due <= fired[i].1
  }

  ghost predicate InOrder(fired: seq<(Alarm, int)>) {
    forall i, j :: 0 <= i < j < |fired| ==> fired[i].0.due <= fired[j].0.due
  }

  function Fired(fired: seq<(Alarm, int)>): (r: seq<Alarm>)
    ensures |r| == |fired|
    ensures forall i :: 0 <= i < |r| ==> r[i] == fired[i].0
  {
    seq(|fired|, i requires 0 <= i < |fired| => fired[i].0)
  }

  /** Entries are conserved, and an accepted alarm is queued, was started, or was cancelled. */
  ghost predicate Conserved(s: Sched) {
    && |s.queue| + s.free + (if s.running.Some? then 1 else 0) == SCHEDULER_Q_SIZE
    && multiset(s.accepted) == multiset(Fired(s.fired)) + multiset(s.cancelled) + multiset(s.queue)
  }

  ghost predicate Ordered(s: Sched) {
    && s.sampled <= s.clock
    && Sorted(s.queue)
    && NeverEarly(s.fired)
    && InOrder(s.fired)
    && (forall i, j :: 0 <= i < |s.fired| && 0 <= j < |s.queue| ==> s.fired[i].0.due <= s.queue[j].due)
    && (forall i :: 0 <= i < |s.fired| ==> s.fired[i].0.due <= s.clock)
  }

  // ---------------------------------------------------------------- lemmas about the parts

  /** The scan walks over exactly the alarms that are not later than the new one. */
  lemma {:induction false} ScanSplits(q: seq<Alarm>, due: int)
    requires Sorted(q)
    requires forall i :: 0 <= i < |q| ==> Close(q[i].due, due)
    ensures forall i :: 0 <= i < Scan(q, due) ==> q[i].due <= due
    ensures forall i :: Scan(q, due) <= i < |q| ==> due < q[i].due
  {
    if q != [] {
      TimeGeWhenClose(due, q[0].due);
      if due >= q[0].due {
        assert forall i :: 0 <= i < |q[1..]| ==> q[1..][i] == q[i + 1];
        ScanSplits(q[1..], due);
      }
    }
  }

  /** A walk that stopped for the first time at `k` is the scan. */
  lemma {:induction false} ScanIs(q: seq<Alarm>, due: int, k: nat)
    requires k <= |q|
    requires forall i :: 0 <= i < k ==> NotBefore(due, q[i].due)
    requires k < |q| ==> !NotBefore(due, q[k].due)
    ensures Scan(q, due) == k
  {
    if k > 0 { ScanIs(q[1..], due, k - 1); }
  }

  lemma InsertSorted(q: seq<Alarm>, a: Alarm)
    requires Sorted(q)
    requires forall i :: 0 <= i < |q| ==> Close(q[i].due, a.due)
    ensures Sorted(Insert(q, a))
  {
    if q != [] {
      TimeGeWhenClose(q[0].due, a.due);
      ScanSplits(q, a.due);
    }
  }

  lemma InsertKeeps(q: seq<Alarm>, a: Alarm)
    ensures multiset(Insert(q, a)) == multiset(q) + multiset{a}
    ensures |Insert(q, a)| == |q| + 1
  {
    assert q == q[..Place(q, a.due)] + q[Place(q, a.due)..];
  }

  /** A cancel request splits the queue in two parts and nothing is lost. */
  lemma {:induction false} CancelSplits(q: seq<Alarm>, func: nat, param: byte)
    ensures multiset(q) == multiset(Hit(q, func, param)) + multiset(Missed(q, func, param))
    ensures |q| == |Hit(q, func, param)| + |Missed(q, func, param)|
  {
    if q != [] {
      assert q == [q[0]] + q[1..];
      if Matches(q[0], func, param) && param != ALARM_ALL_CB {
      } else {
        CancelSplits(q[1..], func, param);
      }
    }
  }

  /** `hits` and `kept` are what a cancel walk over `q` has taken and left so far, `rest` what it
      has still to see. */
  ghost predicate CancelWalk(
    q: seq<Alarm>, func: nat, param: byte, hits: seq<Alarm>, kept: seq<Alarm>, rest: seq<Alarm>)
  {
    && Hit(q, func, param) == hits + Hit(rest, func, param)
    && Missed(q, func, param) == kept + Missed(rest, func, param)
  }

  lemma CancelWalkStep(
    q: seq<Alarm>, func: nat, param: byte, hits: seq<Alarm>, kept: seq<Alarm>, rest: seq<Alarm>)
    requires CancelWalk(q, func, param, hits, kept, rest) && rest != []
    ensures !Matches(rest[0], func, param) ==>
              CancelWalk(q, func, param, hits, kept + [rest[0]], rest[1..])
              && kept + rest == kept + [rest[0]] + rest[1..]
    ensures Matches(rest[0], func, param) && param == ALARM_ALL_CB ==>
              CancelWalk(q, func, param, hits + [rest[0]], kept, rest[1..])
    ensures Matches(rest[0], func, param) && param != ALARM_ALL_CB ==>
              Hit(q, func, param) == hits + [rest[0]] && Missed(q, func, param) == kept + rest[1..]
    ensures kept + rest[1..] == RemoveAt(kept + rest, |kept|)
  {
  }

  lemma {:induction false} CancelKeepsOrder(q: seq<Alarm>, func: nat, param: byte)
    requires Sorted(q)
    ensures Sorted(Missed(q, func, param))
    ensures forall a :: a in Missed(q, func, param) ==> a in q
  {
    if q != [] && !(Matches(q[0], func, param) && param != ALARM_ALL_CB) {
      CancelKeepsOrder(q[1..], func, param);
      assert forall a :: a in Missed(q[1..], func, param) ==> q[0].due <= a.due;
    }
  }

  /** The alarm at `k` is the earliest match in `q`. */
  ghost predicate EarliestMatch(q: seq<Alarm>, func: nat, param: byte, k: int) {
    0 <= k < |q| && Matches(q[k], func, param)
    && forall i :: 0 <= i < k ==> !Matches(q[i], func, param)
  }

  lemma {:induction false} CancelTakesEarliest(q: seq<Alarm>, func: nat, param: byte, k: nat)
    requires param != ALARM_ALL_CB && EarliestMatch(q, func, param, k)
    ensures Hit(q, func, param) == [q[k]] && Missed(q, func, param) == q[..k] + q[k + 1..]
  {
    if k > 0 {
      assert EarliestMatch(q[1..], func, param, k - 1);
      CancelTakesEarliest(q[1..], func, param, k - 1);
      assert [q[0]] + (q[1..][..k - 1] + q[1..][k..]) == q[..k] + q[k + 1..];
    }
  }

  lemma {:induction false} CancelTakesNone(q: seq<Alarm>, func: nat, param: byte)
    requires forall i :: 0 <= i < |q| ==> !Matches(q[i], func, param)
    ensures Hit(q, func, param) == [] && Missed(q, func, param) == q
  {
    if q != [] { CancelTakesNone(q[1..], func, param); }
  }

  /** Without the "all" marker a cancel takes exactly the earliest match, if there is one, and
      leaves every other alarm in place. */
  lemma CancelOneTakes(q: seq<Alarm>, func: nat, param: byte, k: nat)
    requires param != ALARM_ALL_CB
    ensures EarliestMatch(q, func, param, k) ==>
              Hit(q, func, param) == [q[k]] && Missed(q, func, param) == q[..k] + q[k + 1..]
    ensures (forall i :: 0 <= i < |q| ==> !Matches(q[i], func, param)) ==>
              Hit(q, func, param) == [] && Missed(q, func, param) == q
  {
    if EarliestMatch(q, func, param, k) { CancelTakesEarliest(q, func, param, k); }
    if forall i :: 0 <= i < |q| ==> !Matches(q[i], func, param) { CancelTakesNone(q, func, param); }
  }

  /** With the "all" marker it takes every match and keeps the others in order. */
  lemma {:induction false} CancelAllTakes(q: seq<Alarm>, func: nat)
    ensures Hit(q, func, ALARM_ALL_CB) == OfFunc(q, func, true)
    ensures Missed(q, func, ALARM_ALL_CB) == OfFunc(q, func, false)
  {
    if q != [] { CancelAllTakes(q[1..], func); }
  }

  /** The alarms of `q` that do, or do not, call `func`, in order. */
  function OfFunc(q: seq<Alarm>, func: nat, does: bool): seq<Alarm> {
    if q == [] then []
    else (if (q[0].func == func) == does then [q[0]] else []) + OfFunc(q[1..], func, does)
  }

  /** The alarm at `k` is the first that a cancel of `func` with `param` means: of that function and, but for
      the "any" marker, with that parameter. */
  ghost predicate FirstMeant(q: seq<Alarm>, func: nat, param: byte, k: nat) {
    k < |q| && q[k].func == func && (param == 255 || q[k].param == param)
    && forall i :: 0 <= i < k && q[i].func == func ==> param != 255 && q[i].param != param
  }

  /** A cancel with a parameter, or with the "any" marker, takes exactly that alarm, and the others keep their
      order; if there is none it takes nothing. */
  lemma CancelTakesMeant(q: seq<Alarm>, func: nat, param: byte, k: nat)
    requires param != 254
    ensures FirstMeant(q, func, param, k) ==>
              Hit(q, func, param) == [q[k]] && Missed(q, func, param) == q[..k] + q[k + 1..]
    ensures (forall i :: 0 <= i < |q| && q[i].func == func ==> param != 255 && q[i].param != param) ==>
              Hit(q, func, param) == [] && Missed(q, func, param) == q
  {
    CancelOneTakes(q, func, param, k);
    if FirstMeant(q, func, param, k) { assert EarliestMatch(q, func, param, k); }
  }

  /** No cancel ever takes an alarm of another function, or, with a parameter, one with another. */
  lemma {:induction false} CancelTakesOnly(q: seq<Alarm>, func: nat, param: byte)
    ensures forall i :: 0 <= i < |Hit(q, func, param)| ==>
              Hit(q, func, param)[i].func == func && (param < 254 ==> Hit(q, func, param)[i].param == param)
  {
    if q != [] { CancelTakesOnly(q[1..], func, param); }
  }

  /** Where a new alarm goes, in range: before the head if not later than it; else behind all that are not
      later than itself. */
  lemma PlaceExact(q: seq<Alarm>, a: Alarm)
    requires Sorted(q) && forall i :: 0 <= i < |q| ==> Close(q[i].due, a.due)
    ensures q == [] || a.due <= q[0].due ==> Insert(q, a) == [a] + q
    ensures q != [] && q[0].due < a.due ==>
              exists k: nat :: 0 < k <= |q| && Insert(q, a) == q[..k] + [a] + q[k..] && q[k - 1].due <= a.due
                               && forall i :: k <= i < |q| ==> a.due < q[i].due
  {
    if q != [] {
      TimeGeWhenClose(q[0].due, a.due);
      ScanSplits(q, a.due);
      var k := Scan(q, a.due);
      if q[0].due < a.due {
        assert 0 < k && Insert(q, a) == q[..k] + [a] + q[k..];
      }
    }
  }

  // ---------------------------------------------------------------- what each event does

  /** With a free entry, the queue gets the caller's alarm, due the given time from now. */
  lemma ScheduleAnswers(s: Sched, func: nat, param: byte, after: u16)
    requires s.free > 0
    ensures var s', a := Step(s, Schedule(func, param, after)), Alarm(func, param, s.clock + after);
            && multiset(s'.queue) == multiset(s.queue) + multiset{a}
            && s' == s.(queue := s'.queue, free := s.free - 1, accepted := s.accepted + [a])
  {
    var a := Alarm(func, param, s.clock + after);
    assert Step(s, Schedule(func, param, after)) == Accept(s, a, Insert(s.queue, a));
    InsertKeeps(s.queue, a);
  }

  /** Without one, nothing happens. */
  lemma ScheduleOverflows(s: Sched, func: nat, param: byte, after: u16)
    ensures Step(s, Schedule(func, param, after)) == s <==> s.free == 0
  {
    if s.free > 0 { ScheduleAnswers(s, func, param, after); }
  }

  /** A cancel with a parameter that an alarm of the function waits with puts the first such entry back on
      the freelist. */
  lemma CancelAnswers(s: Sched, func: nat, param: byte, k: nat)
    requires param != 254 && FirstMeant(s.queue, func, param, k)
    ensures var s' := Step(s, Cancel(func, param));
            && s'.queue == s.queue[..k] + s.queue[k + 1..] && s'.free == s.free + 1
            && s'.cancelled == s.cancelled + [s.queue[k]]
            && s' == s.(queue := s'.queue, free := s'.free, cancelled := s'.cancelled)
  {
    CancelTakesMeant(s.queue, func, param, k);
  }

  /** A turn of the alarm loop begins exactly if the head's run time is not after the sampled time, in range,
      and starts the head; its end frees the entry. */
  lemma TurnAnswers(s: Sched)
    requires s.running.None? && s.queue != [] && Close(s.sampled, s.queue[0].due)
    ensures Enabled(s, Begin) <==> s.queue[0].due <= s.sampled
    ensures Enabled(s, Begin) ==>
              var s1 := Step(s, Begin);
              && s1 == s.(running := Some(s.queue[0]), queue := s.queue[1..], fired := s.fired + [(s.queue[0], s.clock)])
              && Enabled(s1, End) && Step(s1, End) == s1.(running := None, free := s.free + 1)
  {
    TimeGeWhenClose(s.sampled, s.queue[0].due);
  }

  // ---------------------------------------------------------------- whole runs

  lemma AcceptConserves(s: Sched, a: Alarm, queue: seq<Alarm>)
    requires Conserved(s) && s.free > 0
    requires multiset(queue) == multiset(s.queue) + multiset{a} && |queue| == |s.queue| + 1
    ensures Conserved(Accept(s, a, queue))
  {
  }

  lemma ScheduleConserves(s: Sched, a: Alarm)
    requires Conserved(s)
    ensures Conserved(Scheduled(s, a))
  {
    if s.free > 0 {
      InsertKeeps(s.queue, a);
      AcceptConserves(s, a, Insert(s.queue, a));
    }
  }

  lemma CancelConserves(s: Sched, func: nat, param: byte)
    requires Conserved(s)
    ensures Conserved(Cancelled(s, func, param))
  {
    CancelSplits(s.queue, func, param);
  }

  lemma BeginConserves(s: Sched)
    requires Conserved(s) && s.queue != [] && s.running.None?
    ensures Conserved(Begun(s))
  {
    assert s.queue == [s.queue[0]] + s.queue[1..];
    assert Fired(Begun(s).fired) == Fired(s.fired) + [s.queue[0]];
  }

  lemma EndConserves(s: Sched)
    requires Conserved(s) && s.running.Some?
    ensures Conserved(Ended(s))
  {
  }

  lemma ClockConserves(s: Sched, clock: int, sampled: int)
    requires Conserved(s)
    ensures Conserved(s.(clock := clock)) && Conserved(s.(sampled := sampled))
  {
  }

  lemma ScheduleStepConserves(s: Sched, e: Event)
    requires Conserved(s) && e.Schedule?
    ensures Conserved(Step(s, e))
  {
    var a := Alarm(e.func, e.param, s.clock + e.after);
    ScheduleConserves(s, a);
    assert Step(s, e) == Scheduled(s, a);
  }

  lemma CancelStepConserves(s: Sched, e: Event)
    requires Conserved(s) && e.Cancel?
    ensures Conserved(Step(s, e))
  {
    CancelConserves(s, e.func, e.param);
    assert Step(s, e) == Cancelled(s, e.func, e.param);
  }

  lemma OtherStepConserves(s: Sched, e: Event)
    requires Conserved(s) && Enabled(s, e) && !e.Schedule? && !e.Cancel?
    ensures Conserved(Step(s, e))
  {
    match e {
      case Tick(ticks) => ClockConserves(s, s.clock + ticks, s.sampled);
      case Sample => ClockConserves(s, s.clock, s.clock);
      case Begin => BeginConserves(s);
      case End => EndConserves(s);
    }
  }

  lemma StepConserves(s: Sched, e: Event)
    requires Conserved(s) && Enabled(s, e)
    ensures Conserved(Step(s, e))
  {
    if e.Schedule? {
      ScheduleStepConserves(s, e);
    } else if e.Cancel? {
      CancelStepConserves(s, e);
    } else {
      OtherStepConserves(s, e);
    }
  }

  /** A sorted queue with one more alarm, not yet due, keeps the order of everything. */
  lemma AcceptOrders(s: Sched, a: Alarm, queue: seq<Alarm>)
    requires Ordered(s) && s.free > 0 && Sorted(queue) && s.clock <= a.due
    requires forall j :: 0 <= j < |queue| ==> queue[j] == a || queue[j] in s.queue
    ensures Ordered(Accept(s, a, queue))
  {
    forall i, j | 0 <= i < |s.fired| && 0 <= j < |queue| ensures s.fired[i].0.due <= queue[j].due {
      assert queue[j] == a || queue[j] in s.queue;
    }
  }

  lemma ScheduleOrders(s: Sched, a: Alarm)
    requires Ordered(s) && s.clock <= a.due
    requires s.free > 0 ==> forall i :: 0 <= i < |s.queue| ==> Close(s.queue[i].due, a.due)
    ensures Ordered(Scheduled(s, a))
  {
    if s.free > 0 {
      InsertSorted(s.queue, a);
      InsertElements(s.queue, a);
      AcceptOrders(s, a, Insert(s.queue, a));
    }
  }

  lemma InsertElements(q: seq<Alarm>, a: Alarm)
    ensures forall j :: 0 <= j < |Insert(q, a)| ==> Insert(q, a)[j] == a || Insert(q, a)[j] in q
  {
  }

  lemma CancelOrders(s: Sched, func: nat, param: byte)
    requires Ordered(s)
    ensures Ordered(Cancelled(s, func, param))
  {
    CancelKeepsOrder(s.queue, func, param);
    var q := Missed(s.queue, func, param);
    forall i, j | 0 <= i < |s.fired| && 0 <= j < |q| ensures s.fired[i].0.due <= q[j].due {
      assert q[j] in s.queue;
    }
  }

  lemma BeginOrders(s: Sched)
    requires Ordered(s) && Due(s) && Close(s.sampled, s.queue[0].due)
    ensures Ordered(Begun(s))
  {
    TimeGeWhenClose(s.sampled, s.queue[0].due);
    assert forall j :: 0 <= j < |s.queue[1..]| ==> s.queue[1..][j] == s.queue[j + 1];
  }

  lemma ClockOrders(s: Sched, s': Sched)
    requires Ordered(s) && s'.sampled <= s'.clock && s.clock <= s'.clock && s'.queue == s.queue && s'.fired == s.fired
    ensures Ordered(s')
  {
  }

  lemma ScheduleStepOrders(s: Sched, e: Event)
    requires Ordered(s) && e.Schedule? && InRange(s, e)
    ensures Ordered(Step(s, e))
  {
    var a := Alarm(e.func, e.param, s.clock + e.after);
    assert Step(s, e) == Scheduled(s, a);
    assert Ordered(Scheduled(s, a)) by { ScheduleOrders(s, a); }
  }

  lemma CancelStepOrders(s: Sched, e: Event)
    requires Ordered(s) && e.Cancel?
    ensures Ordered(Step(s, e))
  {
    CancelOrders(s, e.func, e.param);
    assert Step(s, e) == Cancelled(s, e.func, e.param);
  }

  lemma OtherStepOrders(s: Sched, e: Event)
    requires Ordered(s) && Enabled(s, e) && InRange(s, e) && !e.Schedule? && !e.Cancel?
    ensures Ordered(Step(s, e))
  {
    if e.Begin? { BeginOrders(s); } else { ClockOrders(s, Step(s, e)); }
  }

  lemma StepOrders(s: Sched, e: Event)
    requires Ordered(s) && Enabled(s, e) && InRange(s, e)
    ensures Ordered(Step(s, e))
  {
    if e.Schedule? {
      ScheduleStepOrders(s, e);
    } else if e.Cancel? {
      CancelStepOrders(s, e);
    } else {
      OtherStepOrders(s, e);
    }
  }

  /** Over every run: no entry and no alarm is lost or invented. While the compared times stay
      within half the clock range: the queue is sorted by unwrapped run time, no alarm is started
      before its run time, and alarms are started in non-decreasing run time. */
  lemma {:induction false} EveryRun(s: Sched, es: seq<Event>)
    requires Conserved(s) && EnabledAll(s, es)
    ensures Conserved(Run(s, es))
    ensures Ordered(s) && InRangeAll(s, es) ==> Ordered(Run(s, es))
    decreases |es|
  {
    if es != [] {
      StepConserves(s, es[0]);
      if Ordered(s) && InRangeAll(s, es) { StepOrders(s, es[0]); }
      EveryRun(Step(s, es[0]), es[1..]);
    }
  }

  lemma EveryRunFromStart(clock: int, es: seq<Event>)
    requires EnabledAll(Init(clock), es)
    ensures Conserved(Run(Init(clock), es))
    ensures InRangeAll(Init(clock), es) ==> Ordered(Run(Init(clock), es))
  {
    EveryRun(Init(clock), es);
  }

  /** Outside the range rule the order is really lost: a head due at tick 0 and a new alarm due
      40000 ticks later are taken for reversed. */
  lemma OrderLostOutOfRange()
    ensures !Sorted(Insert([Alarm(0, 0, 0), Alarm(0, 0, 10)], Alarm(0, 0, 40000)))
  {
    var q := [Alarm(0, 0, 0), Alarm(0, 0, 10)];
    assert NotBefore(q[0].due, 40000);
    assert Insert(q, Alarm(0, 0, 40000))[0].due == 40000;
    assert Insert(q, Alarm(0, 0, 40000))[1].due == 0;
  }

  // ---------------------------------------------------------------- the alarm loop

  /** What a callback does to the scheduler: the k-th callback started by the loop performs the
      k-th list of `script`, and callbacks beyond it perform nothing. Every terminating execution
      of the loop is one of these. */
  predicate CallbackOps(ops: seq<Event>) {
    forall i :: 0 <= i < |ops| ==> ops[i].Tick? || ops[i].Schedule? || ops[i].Cancel?
  }

  predicate Script(script: seq<seq<Event>>) {
    forall i :: 0 <= i < |script| ==> CallbackOps(script[i])
  }

  lemma {:induction false} OpsEnabled(s: Sched, ops: seq<Event>)
    requires CallbackOps(ops)
    ensures EnabledAll(s, ops)
    ensures Run(s, ops).running == s.running && Run(s, ops).sampled == s.sampled
    ensures ops == [] ==> Run(s, ops).queue == s.queue
    decreases |ops|
  {
    if ops != [] { OpsEnabled(Step(s, ops[0]), ops[1..]); }
  }

  /** The events of one turn of the alarm loop: start the head, let its callback act, release its
      entry. */
  function Round(ops: seq<Event>): seq<Event> { [Begin] + ops + [End] }

  /** The state a turn leaves. */
  function AfterRound(s: Sched, ops: seq<Event>): (s': Sched)
    requires s.running.None? && Due(s) && CallbackOps(ops)
    ensures s'.running.None? && s'.sampled == s.sampled
    ensures ops == [] ==> |s'.queue| < |s.queue|
  {
    OpsEnabled(Step(s, Begin), ops);
    Step(Run(Step(s, Begin), ops), End)
  }

  function Head(script: seq<seq<Event>>): seq<Event> { if script == [] then [] else script[0] }

  function Tail(script: seq<seq<Event>>): seq<seq<Event>> { if script == [] then [] else script[1..] }

  /** The events of one alarm loop: while the head is due at the sampled time, take a turn. */
  function Drain(s: Sched, script: seq<seq<Event>>): (es: seq<Event>)
    requires s.running.None? && Script(script)
    decreases |script|, |s.queue|
  {
    if !Due(s) then []
    else Round(Head(script)) + Drain(AfterRound(s, Head(script)), Tail(script))
  }

  lemma {:induction false} RunAppend(s: Sched, es: seq<Event>, fs: seq<Event>)
    requires EnabledAll(s, es) && EnabledAll(Run(s, es), fs)
    ensures EnabledAll(s, es + fs) && Run(s, es + fs) == Run(Run(s, es), fs)
    decreases |es|
  {
    if es == [] {
      assert es + fs == fs;
    } else {
      assert (es + fs)[0] == es[0] && (es + fs)[1..] == es[1..] + fs;
      RunAppend(Step(s, es[0]), es[1..], fs);
    }
  }

  lemma RoundRuns(s: Sched, ops: seq<Event>)
    requires s.running.None? && Due(s) && CallbackOps(ops)
    ensures EnabledAll(s, Round(ops)) && Run(s, Round(ops)) == AfterRound(s, ops)
  {
    var begun := Step(s, Begin);
    OpsEnabled(begun, ops);
    var mid := Run(begun, ops);
    assert [End][1..] == [] && EnabledAll(Step(mid, End), [End][1..]);
    assert EnabledAll(mid, [End]) && Run(mid, [End]) == Step(mid, End);
    RunAppend(begun, ops, [End]);
    assert Round(ops)[1..] == ops + [End];
  }

  /** From `s0`, the loop has performed `done`, stands in `s` and has `left` of the script. */
  ghost predicate DrainWalk(
    s0: Sched, script: seq<seq<Event>>, done: seq<Event>, s: Sched, left: seq<seq<Event>>)
    requires s0.running.None? && Script(script) && s.running.None? && Script(left)
  {
    EnabledAll(s0, done) && s == Run(s0, done) && Drain(s0, script) == done + Drain(s, left)
  }

  lemma DrainWalkStep(
    s0: Sched, script: seq<seq<Event>>, done: seq<Event>, s: Sched, left: seq<seq<Event>>)
    requires s0.running.None? && Script(script) && s.running.None? && Script(left)
    requires DrainWalk(s0, script, done, s, left) && Due(s)
    ensures DrainWalk(s0, script, done + Round(Head(left)), AfterRound(s, Head(left)), Tail(left))
  {
    var round, next := Round(Head(left)), AfterRound(s, Head(left));
    assert EnabledAll(s0, done + round) && next == Run(s0, done + round) by {
      RoundRuns(s, Head(left));
      RunAppend(s0, done, round);
    }
    var rest := Drain(next, Tail(left));
    assert Drain(s, left) == round + rest;
    assert done + (round + rest) == done + round + rest;
  }

  /** The loop runs only enabled events, and ends with nothing running and no due head. */
  lemma {:induction false} DrainRuns(s: Sched, script: seq<seq<Event>>)
    requires s.running.None? && Script(script)
    ensures EnabledAll(s, Drain(s, script))
    ensures Run(s, Drain(s, script)).running.None?
    ensures !Due(Run(s, Drain(s, script)))
    ensures Run(s, Drain(s, script)).sampled == s.sampled
    decreases |script|, |s.queue|
  {
    if Due(s) {
      RoundRuns(s, Head(script));
      var s' := AfterRound(s, Head(script));
      DrainRuns(s', Tail(script));
      RunAppend(s, Round(Head(script)), Drain(s', Tail(script)));
    }
  }

  /** After the loop no alarm that was due at the sampled time is left, if the clock range rule
      holds for the loop's events and for the final comparison. */
  lemma DrainLeavesNoneDue(s: Sched, script: seq<seq<Event>>)
    requires s.running.None? && Script(script) && Ordered(s) && Conserved(s)
    requires EnabledAll(s, Drain(s, script)) && InRangeAll(s, Drain(s, script))
    requires InRange(Run(s, Drain(s, script)), Begin)
    ensures var s' := Run(s, Drain(s, script));
            forall i :: 0 <= i < |s'.queue| ==> s.sampled < s'.queue[i].due
  {
    DrainRuns(s, script);
    EveryRun(s, Drain(s, script));
    var s' := Run(s, Drain(s, script));
    if s'.queue != [] { TimeGeWhenClose(s'.sampled, s'.queue[0].due); }
  }
}
