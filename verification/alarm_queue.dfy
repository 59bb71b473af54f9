/** The timer queue itself: entries of a fixed pool, threaded on one doubly linked list whose
    head's back pointer is the tail, and on one freelist (include/zb_list_macros.h,
    common/zb_scheduler.c). */
module AlarmQueue {
  import opened Types
  import opened ClockTime
  import opened AlarmSpec

  datatype Home = Queued | Free | Loose

  /** One element of `tm_buffer`. `alarm` is what its fields stand for, with the tick count whose
      wrapped value is `runTime`; `home` names the list the entry is on. */
  class AlarmEntry {
    var func: nat
    var param: byte
    var runTime: u16
    var next: AlarmEntry?
    var prev: AlarmEntry?
    ghost var alarm: Alarm
    ghost var home: Home

    constructor ()
      ensures next == null && home == Free && Filled()
    {
      func, param, runTime, next, prev := 0, 0, 0, null, null;
      alarm, home := Alarm(0, 0, 0), Free;
    }

    method Fill(func: nat, param: byte, runTime: u16, ghost due: int)
      requires runTime == Wrap(due)
      modifies this`func, this`param, this`runTime, this`alarm
      ensures Filled() && alarm == Alarm(func, param, due)
    {
      this.func, this.param, this.runTime, alarm := func, param, runTime, Alarm(func, param, due);
    }

    ghost predicate Filled()
      reads this
    {
      func == alarm.func && param == alarm.param && runTime == Wrap(alarm.due)
    }
  }

  ghost function First(q: seq<AlarmEntry>): AlarmEntry? { if q == [] then null else q[0] }

  /** Each entry of `q` points at the next one, and the last entry ends the chain. */
  ghost predicate ForwardLinked(q: seq<AlarmEntry>, all: set<AlarmEntry>, home: Home)
    reads all
  {
    && NoDup(q)
    && (forall i :: 0 <= i < |q| ==> q[i] in all && q[i].home == home)
    && (forall i {:trigger q[i].next} :: 0 <= i < |q| ==>
          q[i].next == if i + 1 < |q| then q[i + 1] else null)
  }

  /** Each entry points back at its predecessor, and the head at the tail. */
  ghost predicate BackLinked(q: seq<AlarmEntry>, all: set<AlarmEntry>)
    requires forall i :: 0 <= i < |q| ==> q[i] in all
    reads all
  {
    forall i {:trigger q[i].prev} :: 0 <= i < |q| ==>
      q[i].prev == if i > 0 then q[i - 1] else q[|q| - 1]
  }

  /** The entries `q` stand for the alarms `alarms`. */
  ghost predicate Holds(q: seq<AlarmEntry>, alarms: seq<Alarm>, all: set<AlarmEntry>)
    requires forall i :: 0 <= i < |q| ==> q[i] in all
    reads all
  {
    && |q| == |alarms|
    && (forall i :: 0 <= i < |q| ==> q[i].alarm == alarms[i])
    && (forall e :: e in all ==> e.Filled())
  }

  /** The two lists over one pool. */
  class AlarmLists {
    var tmQueue: AlarmEntry?
    var tmFreelist: AlarmEntry?
    ghost const pool: set<AlarmEntry>
    ghost var queue: seq<AlarmEntry>
    ghost var free: seq<AlarmEntry>

    ghost predicate QueueLinked()
      reads this, pool
    {
      tmQueue == First(queue) && ForwardLinked(queue, pool, Queued) && BackLinked(queue, pool)
    }

    ghost predicate FreeLinked()
      reads this, pool
    {
      tmFreelist == First(free) && ForwardLinked(free, pool, Free)
    }

    /** Nothing on the freelist changes in the queue operations. */
    twostate predicate FreeKept()
      reads this, pool
    {
      free == old(free) && tmFreelist == old(tmFreelist)
      && forall e :: e in pool && old(e.home) == Free ==> e.home == Free && e.next == old(e.next)
    }

    /** `zb_sched_init` pushes every element of `tm_buffer` on the freelist. */
    constructor ()
      ensures QueueLinked() && FreeLinked() && queue == [] && |free| == SCHEDULER_Q_SIZE
      ensures fresh(pool) && |pool| == SCHEDULER_Q_SIZE && Holds(queue, [], pool)
    {
      ghost var made: seq<AlarmEntry> := [];
      ghost var all: set<AlarmEntry> := {};
      var head: AlarmEntry? := null;
      for i := 0 to SCHEDULER_Q_SIZE
        invariant |made| == i == |all| && head == First(made)
        invariant forall e :: e in all ==> fresh(e) && e.Filled()
        invariant ForwardLinked(made, all, Free)
      {
        var e := new AlarmEntry();
        e.next := head;
        head := e;
        made, all := [e] + made, all + {e};
      }
      tmQueue, tmFreelist := null, head;
      pool, queue, free := all, [], made;
    }

    method InsertHead(ent: AlarmEntry)
      requires QueueLinked() && ent in pool && ent.home == Loose
      modifies this`tmQueue, this`queue, pool`next, pool`prev, ent`home
      ensures FreeKept() && QueueLinked() && queue == [ent] + old(queue) && ent.home == Queued
    {
      ent.next := tmQueue;
      if tmQueue != null {
        ent.prev := tmQueue.prev;
        tmQueue.prev := ent;
      } else {
        ent.prev := ent;
      }
      tmQueue := ent;
      queue, ent.home := [ent] + queue, Queued;
    }

    method InsertTail(ent: AlarmEntry)
      requires QueueLinked() && ent in pool && ent.home == Loose
      modifies this`tmQueue, this`queue, pool`next, pool`prev, ent`home
      ensures FreeKept() && QueueLinked() && queue == old(queue) + [ent]
    {
      ent.next := null;
      if tmQueue != null {
        ent.prev := tmQueue.prev;
        tmQueue.prev.next := ent;
        tmQueue.prev := ent;
      } else {
        ent.prev := ent;
        tmQueue := ent;
      }
      queue, ent.home := queue + [ent], Queued;
    }

    method InsertAfter(ent: AlarmEntry, newEnt: AlarmEntry, ghost k: nat)
      requires QueueLinked() && newEnt in pool && newEnt.home == Loose
      requires k < |queue| && queue[k] == ent
      modifies this`tmQueue, this`queue, pool`next, pool`prev, newEnt`home
      ensures FreeKept() && QueueLinked() && queue == InsertAt(old(queue), k + 1, newEnt)
    {
      if ent == tmQueue.prev {
        InsertTail(newEnt);
      } else {
        LinkAfter(ent, newEnt, k);
        queue, newEnt.home := InsertAt(queue, k + 1, newEnt), Queued;
      }
    }

    /** Its pointer updates between two queued entries. */
    method LinkAfter(ent: AlarmEntry, newEnt: AlarmEntry, ghost k: nat)
      requires QueueLinked() && newEnt in pool && newEnt.home == Loose
      requires k + 1 < |queue| && queue[k] == ent
      modifies pool`next, pool`prev
      ensures newEnt.next == queue[k + 1] && newEnt.prev == ent
      ensures forall i {:trigger queue[i].next} :: 0 <= i < |queue| ==>
                queue[i].next == if i == k then newEnt else old(queue[i].next)
      ensures forall i {:trigger queue[i].prev} :: 0 <= i < |queue| ==>
                queue[i].prev == if i == k + 1 then newEnt else old(queue[i].prev)
      ensures forall e :: e in pool && e.home == Free ==> e.next == old(e.next)
    {
      assert ent.next == queue[k + 1];
      newEnt.next := ent.next;
      newEnt.prev := ent;
      ent.next.prev := newEnt;
      ent.next := newEnt;
    }

    method CutHead() returns (ent: AlarmEntry)
      requires QueueLinked() && queue != []
      modifies this`tmQueue, this`queue, pool`next, pool`prev, tmQueue`home
      ensures FreeKept() && QueueLinked() && queue == old(queue[1..]) && ent == old(queue[0]) && ent.home == Loose
    {
      ent := tmQueue;
      assert |queue| > 1 ==> ent.next == queue[1];
      if tmQueue.next != null {
        tmQueue.next.prev := tmQueue.prev;
      }
      tmQueue.prev := null;
      tmQueue := tmQueue.next;
      queue, ent.home := queue[1..], Loose;
    }

    /** The pointer updates of `ZB_LIST_REMOVE`: only the neighbours, and the head's back pointer
        to the tail, change. */
    method Unlink(ent: AlarmEntry, ghost k: nat)
      requires QueueLinked() && k < |queue| && queue[k] == ent
      modifies this`tmQueue, pool`next, pool`prev
      ensures tmQueue == First(RemoveAt(queue, k))
      ensures forall i {:trigger queue[i].next} :: 0 <= i < |queue| && i != k ==>
                queue[i].next == if i == k - 1 then old(ent.next) else old(queue[i].next)
      ensures forall i {:trigger queue[i].prev} :: 0 <= i < |queue| && i != k ==>
                queue[i].prev == if i == k + 1 || (i == 0 && k == |queue| - 1) then old(ent.prev) else old(queue[i].prev)
      ensures forall e :: e in pool && e.home == Free ==> e.next == old(e.next)
    {
      ghost var q := queue;
      assert ent.next == if k + 1 < |q| then q[k + 1] else null;
      assert ent.prev == if k > 0 then q[k - 1] else q[|q| - 1];
      if ent.prev != null {
        if ent.next != null {
          ent.next.prev := ent.prev;
        } else {
          tmQueue.prev := ent.prev;
        }
        if ent == tmQueue {
          tmQueue := ent.next;
        } else {
          ent.prev.next := ent.next;
        }
        ent.prev := null;
      }
    }

    method Remove(ent: AlarmEntry, ghost k: nat)
      requires QueueLinked() && k < |queue| && queue[k] == ent
      modifies this`tmQueue, this`queue, pool`next, pool`prev, ent`home
      ensures FreeKept() && QueueLinked() && queue == RemoveAt(old(queue), k) && ent.home == Loose
    {
      ghost var q := queue;
      assert ent.next == if k + 1 < |q| then q[k + 1] else null;
      assert ent.prev == if k > 0 then q[k - 1] else q[|q| - 1];
      Unlink(ent, k);
      queue, ent.home := RemoveAt(queue, k), Loose;
    }

    method FreePush(ent: AlarmEntry)
      requires FreeLinked() && ent in pool && ent.home == Loose
      modifies this`tmFreelist, this`free, ent`next, ent`home
      ensures FreeLinked() && free == [ent] + old(free)
    {
      ent.next := tmFreelist;
      tmFreelist := ent;
      free, ent.home := [ent] + free, Free;
    }

    method FreePop() returns (ent: AlarmEntry?)
      requires FreeLinked()
      modifies this`tmFreelist, this`free, pool`home
      ensures FreeLinked() && ent == old(First(free))
      ensures forall e :: e in pool && e != ent ==> e.home == old(e.home)
      ensures old(free) == [] ==> free == []
      ensures old(free) != [] ==> free == old(free[1..]) && ent.home == Loose
    {
      ent := tmFreelist;
      if ent != null {
        assert |free| > 1 ==> ent.next == free[1];
        tmFreelist := ent.next;
        free, ent.home := free[1..], Loose;
      }
    }

    /** A cancelled entry goes from the queue to the freelist. */
    method Discard(ent: AlarmEntry, ghost k: nat, ghost q: seq<Alarm>)
      requires QueueLinked() && FreeLinked() && k < |queue| && queue[k] == ent && Holds(queue, q, pool)
      modifies this, pool`next, pool`prev, ent`home
      ensures QueueLinked() && queue == RemoveAt(old(queue), k)
      ensures FreeLinked() && free == [ent] + old(free) && Holds(queue, RemoveAt(q, k), pool)
    {
      Remove(ent, k);
      FreePush(ent);
    }

    /** The walk to the first entry that is later than the new one; `k` is its place. */
    method FindLater(nent: AlarmEntry, ghost q: seq<Alarm>) returns (ent: AlarmEntry?, ghost k: nat)
      requires QueueLinked() && nent in pool && queue != [] && Holds(queue, q, pool)
      ensures k == Scan(q, nent.alarm.due)
      ensures ent == if Scan(q, nent.alarm.due) < |queue| then queue[Scan(q, nent.alarm.due)] else null
    {
      ent, k := tmQueue, 0;
      while ent != null && TimeGe(nent.runTime, ent.runTime)
        invariant k <= |queue| && ent == if k < |queue| then queue[k] else null
        invariant forall i :: 0 <= i < k ==> NotBefore(nent.alarm.due, q[i].due)
        decreases |queue| - k
      {
        assert k + 1 < |queue| ==> ent.next == queue[k + 1];
        ent, k := ent.next, k + 1;
      }
      ScanIs(q, nent.alarm.due, k);
    }

    /** Threads an entry into the queue before `ent`, found at place `k`, or at the end. */
    method InsertBefore(ent: AlarmEntry?, nent: AlarmEntry, ghost k: nat)
      requires QueueLinked() && nent in pool && nent.home == Loose && queue != []
      requires k <= |queue| && ent == if k < |queue| then queue[k] else null
      modifies this`tmQueue, this`queue, pool`next, pool`prev, nent`home
      ensures FreeKept() && QueueLinked() && queue == InsertAt(old(queue), if k > 0 then k else |old(queue)|, nent)
    {
      if ent != null {
        // A queued entry always has a back pointer, so the head insertion of
        // common/zb_scheduler.c:321-325 cannot be reached.
        assert ent.prev == if k > 0 then queue[k - 1] else queue[|queue| - 1];
        InsertAfter(ent.prev, nent, if k > 0 then k - 1 else |queue| - 1);
      } else {
        InsertTail(nent);
      }
    }

    /** Threads a filled entry into the queue at the place the wrapped times select. */
    method InsertByTime(nent: AlarmEntry, ghost q: seq<Alarm>)
      requires QueueLinked() && nent in pool && nent.home == Loose
      requires Holds(queue, q, pool)
      modifies this`tmQueue, this`queue, pool`next, pool`prev, nent`home
      ensures FreeKept() && QueueLinked() && queue == InsertAt(old(queue), Place(q, nent.alarm.due), nent)
      ensures Holds(queue, Insert(q, nent.alarm), pool)
    {
      if tmQueue == null || TimeGe(tmQueue.runTime, nent.runTime) {
        InsertHead(nent);
      } else {
        var ent, k := FindLater(nent, q);
        InsertBefore(ent, nent, k);
      }
    }

    /** The entry being run is not on a list and stays so. */
    twostate predicate LooseKept()
      reads this, pool
    {
      forall e :: e in pool && old(e.home) == Loose ==> e.home == Loose
    }

    /** Takes a free entry, fills it and queues it, if one is left. */
    method Enqueue(func: nat, param: byte, runTime: u16, ghost due: int, ghost q: seq<Alarm>, ghost q': seq<Alarm>)
      returns (ok: bool)
      requires QueueLinked() && FreeLinked() && Holds(queue, q, pool) && runTime == Wrap(due)
      requires q' == if free != [] then Insert(q, Alarm(func, param, due)) else q
      modifies this, pool
      ensures QueueLinked() && FreeLinked() && LooseKept()
      ensures ok <==> old(free) != []
      ensures |free| == if ok then old(|free|) - 1 else 0
      ensures Holds(queue, q', pool)
    {
      var nent := TakeFilled(func, param, runTime, due, q);
      ok := nent != null;
      if nent != null {
        InsertByTime(nent, q);
      }
    }

    /** Takes a free entry, if there is one, and fills it. */
    method TakeFilled(func: nat, param: byte, runTime: u16, ghost due: int, ghost q: seq<Alarm>) returns (nent: AlarmEntry?)
      requires QueueLinked() && FreeLinked() && Holds(queue, q, pool) && runTime == Wrap(due)
      modifies this`tmFreelist, this`free, pool`home, pool`func, pool`param, pool`runTime, pool`alarm
      ensures QueueLinked() && FreeLinked() && Holds(queue, q, pool) && (nent == null <==> old(free) == [])
      ensures nent == null ==> free == []
      ensures nent != null ==> nent in pool && nent.home == Loose && old(nent.home) == Free
                               && nent.alarm == Alarm(func, param, due) && |free| == |old(free)| - 1
      ensures LooseKept()
    {
      nent := FreePop();
      if nent != null {
        nent.Fill(func, param, runTime, due);
      }
    }

    /** Walks the queue and discards the entries a cancel request names. */
    method CancelMatching(func: nat, param: byte, ghost q: seq<Alarm>, ghost q': seq<Alarm>)
      returns (found: bool, ghost hits: seq<Alarm>)
      requires QueueLinked() && FreeLinked() && Holds(queue, q, pool)
      requires q' == Missed(q, func, param)
      modifies this, pool`next, pool`prev, pool`home
      ensures QueueLinked() && FreeLinked() && LooseKept()
      ensures Holds(queue, q', pool)
      ensures hits == Hit(q, func, param)
      ensures |free| == old(|free|) + |hits|
      ensures found <==> hits != []
    {
      found, hits := false, [];
      ghost var kept, rest := [], q;
      var ent := tmQueue;
      while ent != null
        invariant QueueLinked() && FreeLinked() && LooseKept()
        invariant Holds(queue, kept + rest, pool)
        invariant ent == if rest == [] then null else queue[|kept|]
        invariant CancelWalk(q, func, param, hits, kept, rest)
        invariant found <==> hits != []
        invariant |free| == old(|free|) + |hits|
        decreases |rest|
      {
        CancelWalkStep(q, func, param, hits, kept, rest);
        assert ent.alarm == rest[0] && ent.Filled();
        var next := ent.next;
        if ent.func == func && (param == ALARM_ANY_PARAM || param == ALARM_ALL_CB || param == ent.param) {
          Discard(ent, |kept|, kept + rest);
          found, hits := true, hits + [rest[0]];
          if param != ALARM_ALL_CB {
            return;
          }
        } else {
          kept := kept + [rest[0]];
        }
        rest := rest[1..];
        ent := next;
      }
    }
  }

  /** The alarm half of `zb_sched_globals_t` together with the clock it reads. */
  class AlarmScheduler {
    const lists: AlarmLists
    var timer: u16
    ghost var running: Option<AlarmEntry>
    /** The abstract state this object represents. */
    ghost var state: Sched

    ghost predicate Valid()
      reads this, lists, lists.pool
    {
      && lists.QueueLinked() && lists.FreeLinked()
      && Holds(lists.queue, state.queue, lists.pool)
      && |lists.free| == state.free
      && (running.Some? <==> state.running.Some?)
      && (running.Some? ==> running.value in lists.pool && running.value.home == Loose)
      && timer == Wrap(state.clock)
      && |lists.pool| == SCHEDULER_Q_SIZE
    }

    /** In every valid state with conserved entries, the queue, the freelist and at most one running
        entry partition `tm_buffer`. */
    lemma PoolPartitioned(e: AlarmEntry)
      requires Valid() && Conserved(state) && e in lists.pool
      ensures e in lists.queue <==> e.home == Queued
      ensures e in lists.free <==> e.home == Free
      ensures running == Some(e) <==> e.home == Loose
    {
      var run := if running.Some? then [running.value] else [];
      NoDupLength(lists.queue + lists.free + run, lists.pool);
      assert e in lists.queue || e in lists.free || e in run;
    }

    constructor (time: u16)
      ensures Valid() && state == Init(time)
      ensures fresh(lists) && fresh(lists.pool)
    {
      lists := new AlarmLists();
      timer, running, state := time, None, Init(time);
    }

    /** The clock advances. */
    method TimerTick(ticks: nat)
      requires Valid()
      modifies this`timer, this`state
      ensures Valid() && state == Step(old(state), Tick(ticks))
    {
      timer := (timer + ticks) % 0x1_0000;
      state := Step(state, Tick(ticks));
    }

    /** `zb_schedule_alarm`; `ok` is RET_OK, its absence RET_OVERFLOW. */
    method ScheduleAlarm(func: nat, param: byte, runAfter: u16) returns (ok: bool)
      requires Valid()
      modifies this`state, lists, lists.pool
      ensures Valid() && state == Step(old(state), Schedule(func, param, runAfter))
      ensures ok <==> old(state.free) > 0
    {
      AddWraps(state.clock, runAfter);
      ghost var after := Step(state, Schedule(func, param, runAfter));
      ok := lists.Enqueue(func, param, TimeAdd(timer, runAfter), state.clock + runAfter, state.queue, after.queue);
      state := after;
    }

    /** `zb_schedule_alarm_cancel`; `found` is RET_OK, its absence RET_NOT_FOUND. */
    method CancelAlarm(func: nat, param: byte) returns (found: bool)
      requires Valid()
      modifies this`state, lists, lists.pool
      ensures Valid() && state == Step(old(state), Cancel(func, param))
      ensures found <==> Hit(old(state.queue), func, param) != []
    {
      ghost var after := Step(state, Cancel(func, param));
      ghost var hits;
      found, hits := lists.CancelMatching(func, param, state.queue, after.queue);
      state := after;
    }

    /** Takes the head off the queue for execution. */
    method BeginHead() returns (ent: AlarmEntry)
      requires Valid() && Enabled(state, Begin)
      modifies this`state, this`running, lists, lists.pool
      ensures Valid() && state == Step(old(state), Begin)
      ensures running == Some(ent) && ent.alarm == old(state.queue[0])
    {
      ghost var after := Step(state, Begin);
      ent := lists.CutHead();
      running, state := Some(ent), after;
    }

    /** Puts the executed entry on the freelist. */
    method EndRunning(ent: AlarmEntry)
      requires Valid() && running == Some(ent)
      modifies this`state, this`running, lists, ent`next, ent`home
      ensures Valid() && state == Step(old(state), End)
    {
      lists.FreePush(ent);
      running, state := None, Step(state, End);
    }

    /** What a callback does to the scheduler while it runs. */
    method Perform(ops: seq<Event>)
      requires Valid() && CallbackOps(ops)
      modifies this`timer, this`state, lists, lists.pool
      ensures Valid() && EnabledAll(old(state), ops) && state == Run(old(state), ops)
      decreases |ops|
    {
      if ops != [] {
        match ops[0] {
          case Tick(ticks) => TimerTick(ticks);
          case Schedule(func, param, after) => var _ := ScheduleAlarm(func, param, after);
          case Cancel(func, param) => var _ := CancelAlarm(func, param);
        }
        Perform(ops[1..]);
      }
    }

    /** One turn of the alarm loop: cut the head, run its callback, release the entry. */
    method RunHead(ops: seq<Event>)
      requires Valid() && running.None? && Due(state) && CallbackOps(ops)
      modifies this`timer, this`state, this`running, lists, lists.pool
      ensures Valid() && running.None? && state == AfterRound(old(state), ops)
    {
      ghost var after := AfterRound(state, ops);
      var ent := BeginHead();
      Perform(ops);
      EndRunning(ent);
      assert state == after;
    }

    method HeadIsDue(t: u16) returns (due: bool)
      requires Valid() && t == Wrap(state.sampled)
      ensures due <==> Due(state)
    {
      due := lists.tmQueue != null && TimeGe(t, lists.tmQueue.runTime);
    }

    /** The delayed part of `zb_sched_loop_iteration`. */
    method RunDueAlarms(script: seq<seq<Event>>)
      requires Valid() && running.None? && Script(script)
      modifies this`timer, this`state, this`running, lists, lists.pool
      ensures Valid() && running.None?
      ensures var s := Step(old(state), Sample);
              EnabledAll(s, Drain(s, script)) && state == Run(s, Drain(s, script))
    {
      var t := timer;
      state := Step(state, Sample);
      ghost var s, done := state, [];
      var left := script;
      var due := HeadIsDue(t);
      while due
        invariant Valid() && running.None? && Script(left) && Script(script)
        invariant t == Wrap(state.sampled)
        invariant DrainWalk(s, script, done, state, left)
        invariant due <==> Due(state)
        decreases |left|, |state.queue|
      {
        var ops := if left == [] then [] else left[0];
        DrainWalkStep(s, script, done, state, left);
        done := done + Round(ops);
        left := if left == [] then [] else left[1..];
        RunHead(ops);
        due := HeadIsDue(t);
      }
      assert done + [] == done;
    }
  }
}
