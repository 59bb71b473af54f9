/** The bounded ring buffer of include/zb_ringbuffer.h and the immediate-callback queue built on it
    (common/zb_scheduler.c). */
module CallbackQueue {
  import opened Types

  /** The place `i` positions after `start` in a ring of `size` places. */
  function Place(start: nat, i: nat, size: nat): (k: nat)
    requires start < size && i <= size
    ensures k < size
  {
    if start + i < size then start + i else start + i - size
  }

  lemma NextPlace(k: nat, size: nat)
    requires k < size
    ensures (k + 1) % size == Place(k, 1, size)
  {
    if k + 1 == size { assert size % size == 0; }
  }

  /** The `n` entries of ring `r` from `start` on. */
  function Window<T>(r: seq<T>, start: nat, n: nat): (q: seq<T>)
    requires start < |r| && n <= |r|
    ensures |q| == n
    ensures forall i :: 0 <= i < n ==> q[i] == r[Place(start, i, |r|)]
  {
    seq(n, i requires 0 <= i < n => r[Place(start, i, |r|)])
  }

  /** Writing the place behind the window extends it, also across the end of the ring. */
  lemma WindowPut<T>(r: seq<T>, start: nat, n: nat, v: T)
    requires start < |r| && n < |r|
    ensures Window(r[Place(start, n, |r|) := v], start, n + 1) == Window(r, start, n) + [v]
    ensures Place(Place(start, n, |r|), 1, |r|) == Place(start, n + 1, |r|)
  {
  }

  /** Moving the start drops the oldest entry. */
  lemma WindowGet<T>(r: seq<T>, start: nat, n: nat)
    requires start < |r| && 0 < n <= |r|
    ensures Window(r, Place(start, 1, |r|), n - 1) == Window(r, start, n)[1..]
    ensures Place(Place(start, 1, |r|), n - 1, |r|) == Place(start, n, |r|)
  {
  }

  class RingBuffer<T> {
    const ring: array<T>
    var readI: nat
    var writeI: nat
    var written: nat

    ghost predicate Valid()
      reads this
    {
      readI < ring.Length && written <= ring.Length && writeI == Place(readI, written, ring.Length)
    }

    /** The queued entries, oldest first. */
    ghost function Contents(): seq<T>
      reads this, ring
      requires Valid()
    {
      Window(ring[..], readI, written)
    }

    constructor (capacity: nat, fill: T)
      requires capacity > 0
      ensures Valid() && Contents() == [] && ring.Length == capacity && fresh(ring)
    {
      ring := new T[capacity](_ => fill);
      readI, writeI, written := 0, 0, 0;
    }

    predicate IsFull()
      reads this
    {
      written >= ring.Length
    }

    /** `ZB_RING_BUFFER_PUT`: its callers test for a full buffer first. */
    method Put(value: T)
      requires Valid() && !IsFull()
      modifies this, ring
      ensures Valid() && Contents() == old(Contents()) + [value]
      ensures readI == old(readI) && (old(written) > 0 ==> ring[readI] == old(ring[readI]))
    {
      WindowPut(ring[..], readI, written, value);
      NextPlace(writeI, ring.Length);
      ghost var r := ring[..];
      ring[writeI] := value;
      assert ring[..] == r[writeI := value];
      written := written + 1;
      writeI := (writeI + 1) % ring.Length;
    }

    /** `ZB_RING_BUFFER_PEEK`. */
    method Peek() returns (head: Option<T>)
      requires Valid()
      ensures head == if Contents() == [] then None else Some(Contents()[0])
    {
      head := if written == 0 then None else Some(ring[readI]);
    }

    /** `ZB_RING_BUFFER_FLUSH_GET`: to be used after a successful peek. */
    method FlushGet()
      requires Valid() && Contents() != []
      modifies this
      ensures Valid() && Contents() == old(Contents())[1..]
    {
      WindowGet(ring[..], readI, written);
      NextPlace(readI, ring.Length);
      written := written - 1;
      readI := (readI + 1) % ring.Length;
    }
  }

  const SCHEDULER_Q_SIZE: nat := 16

  datatype Callback = Callback(func: nat, param: byte)

  /** The queue of immediate callbacks with its history. While a callback runs, its entry is still the
      head of the ring: it is released only after the call. */
  class CallbackScheduler {
    const q: RingBuffer<Callback>
    ghost var accepted: seq<Callback>
    ghost var executed: seq<Callback>

    ghost predicate Valid()
      reads this, q, q.ring
    {
      && q.Valid() && q.ring.Length == SCHEDULER_Q_SIZE
      && q as object != q.ring as object
      && accepted == executed + q.Contents()
    }

    constructor ()
      ensures Valid() && accepted == executed == [] && fresh(q) && fresh(q.ring)
    {
      q := new RingBuffer<Callback>(SCHEDULER_Q_SIZE, Callback(0, 0));
      accepted, executed := [], [];
    }

    /** `zb_schedule_callback`; `ok` is RET_OK, its absence RET_OVERFLOW. A queued head, running or
        not, keeps its ring entry. */
    method ScheduleCallback(func: nat, param: byte) returns (ok: bool)
      requires Valid()
      modifies this`accepted, q, q.ring
      ensures Valid() && executed == old(executed)
      ensures ok <==> |old(q.Contents())| < SCHEDULER_Q_SIZE
      ensures q.Contents() == if ok then old(q.Contents()) + [Callback(func, param)] else old(q.Contents())
      ensures accepted == if ok then old(accepted) + [Callback(func, param)] else old(accepted)
      ensures q.readI == old(q.readI) && (old(q.written) > 0 ==> q.ring[q.readI] == old(q.ring[q.readI]))
    {
      ok := !q.IsFull();
      if ok {
        q.Put(Callback(func, param));
        accepted := accepted + [Callback(func, param)];
      }
    }

    /** What the running callback schedules, in order, as far as there is room. */
    method Call(schedules: seq<Callback>)
      requires Valid() && q.Contents() != []
      modifies this`accepted, q, q.ring
      ensures Valid() && executed == old(executed) && q.readI == old(q.readI)
      ensures q.Contents() == AfterCall(old(q.Contents()), schedules)
    {
      ghost var start := q.Contents();
      for i := 0 to |schedules|
        invariant Valid() && executed == old(executed) && q.readI == old(q.readI)
        invariant q.Contents() == AfterCall(start, schedules[..i])
      {
        assert schedules[..i + 1] == schedules[..i] + [schedules[i]];
        AfterCallStep(start, schedules[..i], schedules[i]);
        var _ := ScheduleCallback(schedules[i].func, schedules[i].param);
      }
      assert schedules[..|schedules|] == schedules;
    }

    /** The immediate part of `zb_sched_loop_iteration`: the k-th callback run schedules the k-th list
        of `script`, callbacks beyond it schedule nothing. The queue is empty at the end, everything
        accepted was executed, in the order of acceptance, and that is what `Executes` says. */
    method RunCallbacks(script: seq<seq<Callback>>)
      requires Valid()
      modifies this, q, q.ring
      ensures Valid() && q.Contents() == [] && accepted == executed
      ensures executed == old(executed) + Executes(old(q.Contents()), script)
    {
      var left := script;
      ghost var all := executed + Executes(q.Contents(), script);
      var ent := q.Peek();
      while ent.Some?
        invariant Valid() && ent == if q.Contents() == [] then None else Some(q.Contents()[0])
        invariant executed + Executes(q.Contents(), left) == all
        decreases |left|, |q.Contents()|
      {
        ExecutesNext(executed, q.Contents(), left);
        RunOne(ent.value, if left == [] then [] else left[0]);
        left := if left == [] then [] else left[1..];
        ent := q.Peek();
      }
      assert executed + [] == executed;
    }

    /** One turn: call the head, then release its entry. */
    method RunOne(ent: Callback, schedules: seq<Callback>)
      requires Valid() && q.Contents() != [] && ent == q.Contents()[0]
      modifies this, q, q.ring
      ensures Valid() && executed == old(executed) + [ent]
      ensures q.Contents() == AfterCall(old(q.Contents()), schedules)[1..]
    {
      Call(schedules);
      ghost var c := q.Contents();
      assert executed + c == executed + [c[0]] + c[1..];
      executed := executed + [ent];
      q.FlushGet();
    }
  }

  /** The queue after the running callback has scheduled `more`: what does not fit is dropped. */
  function AfterCall(queue: seq<Callback>, more: seq<Callback>): (r: seq<Callback>)
    ensures queue <= r
    ensures |queue| <= SCHEDULER_Q_SIZE ==> |r| <= SCHEDULER_Q_SIZE
    ensures more == [] ==> r == queue
  {
    var room := if |queue| >= SCHEDULER_Q_SIZE then 0 else SCHEDULER_Q_SIZE - |queue|;
    queue + if |more| <= room then more else more[..room]
  }

  function First(script: seq<seq<Callback>>): seq<Callback> { if script == [] then [] else script[0] }

  /** The callbacks executed, in order, from a queue and what each of them schedules. */
  function Executes(queue: seq<Callback>, script: seq<seq<Callback>>): seq<Callback>
    decreases |script|, |queue|
  {
    if queue == [] then []
    else [queue[0]] + Executes(AfterCall(queue, First(script))[1..], if script == [] then [] else script[1..])
  }

  /** One more callback scheduled by the running one comes last, unless sixteen are queued. */
  lemma AfterCallStep(queue: seq<Callback>, more: seq<Callback>, next: Callback)
    requires |queue| <= SCHEDULER_Q_SIZE
    ensures AfterCall(queue, more + [next])
            == AfterCall(queue, more) + if |AfterCall(queue, more)| < 16 then [next] else []
  {
  }

  function Flat(script: seq<seq<Callback>>): seq<Callback> {
    if script == [] then [] else script[0] + Flat(script[1..])
  }

  /** While everything fits, the callbacks queued are executed first, and then those they schedule, in the
      order in which they were scheduled. */
  lemma {:induction false} ExecutedInOrder(queue: seq<Callback>, script: seq<seq<Callback>>)
    requires |script| <= |queue| && |queue| + |Flat(script)| <= 16
    ensures Executes(queue, script) == queue + Flat(script)
    decreases |script|, |queue|
  {
    if script == [] {
      ExecutesQueue(queue);
    } else {
      var first, rest, later := script[0], queue[1..] + script[0], Flat(script[1..]);
      assert Flat(script) == first + later;
      ExecutedInOrder(rest, script[1..]);
      NextInOrder(queue, script);
      FirstApart(queue, first, later);
    }
  }

  lemma FirstApart(queue: seq<Callback>, first: seq<Callback>, later: seq<Callback>)
    requires queue != []
    ensures [queue[0]] + (queue[1..] + first + later) == queue + (first + later)
  {
  }

  /** Callbacks that schedule nothing are executed as queued. */
  lemma {:induction false} ExecutesQueue(queue: seq<Callback>)
    ensures Executes(queue, []) == queue
  {
    if queue != [] {
      assert AfterCall(queue, [])[1..] == queue[1..];
      ExecutesQueue(queue[1..]);
    }
  }

  lemma NextInOrder(queue: seq<Callback>, script: seq<seq<Callback>>)
    requires queue != [] && script != [] && |queue| + |script[0]| <= 16
    ensures Executes(queue, script) == [queue[0]] + Executes(queue[1..] + script[0], script[1..])
  {
    assert AfterCall(queue, script[0])[1..] == queue[1..] + script[0];
  }

  lemma ExecutesNext(done: seq<Callback>, queue: seq<Callback>, script: seq<seq<Callback>>)
    requires queue != []
    ensures done + Executes(queue, script)
            == done + [queue[0]] + Executes(AfterCall(queue, First(script))[1..], if script == [] then [] else script[1..])
  {
  }
}
