/** The packet buffer pool (common/zb_bufpool.c): one freelist with a quota per direction, and first
    come, first served waiting for a buffer. */
module BufferPools {
  import opened Types

  const POOL_SIZE: nat := 16
  const BUFS_LIMIT: nat := POOL_SIZE / 2
  const BUF_Q_SIZE: nat := 16

  /** A packet buffer as the pool sees it; `free` is whether it is on the freelist. */
  class Buf {
    var next: Buf?
    var isIn: bool
    ghost var free: bool

    constructor ()
      ensures free
    {
      next, isIn, free := null, false, true;
    }
  }

  ghost predicate Linked(q: seq<Buf>, all: set<Buf>)
    reads all
  {
    && NoDup(q)
    && (forall i :: 0 <= i < |q| ==> q[i] in all && q[i].free)
    && (forall i {:trigger q[i].next} :: 0 <= i < |q| ==> q[i].next == if i + 1 < |q| then q[i + 1] else null)
  }

  class BufferPool {
    var head: Buf?
    /** `bufs_allocated[1]` and `bufs_allocated[0]`. */
    var inCount: nat
    var outCount: nat
    ghost const pool: set<Buf>
    ghost var freelist: seq<Buf>
    /** The buffers outstanding in each class. */
    ghost var inBufs: set<Buf>
    ghost var outBufs: set<Buf>

    ghost function Bufs(isIn: bool): set<Buf>
      reads this
    {
      if isIn then inBufs else outBufs
    }

    function Count(isIn: bool): nat
      reads this
    {
      if isIn then inCount else outCount
    }

    /** Free and outstanding buffers partition the pool; each counter is the number of outstanding
        buffers of its class and within its quota. */
    ghost predicate Valid()
      reads this, pool
    {
      && head == (if freelist == [] then null else freelist[0])
      && Linked(freelist, pool)
      && (forall b :: b in inBufs ==> b in pool && !b.free && b.isIn)
      && (forall b :: b in outBufs ==> b in pool && !b.free && !b.isIn)
      && inCount == |inBufs| && outCount == |outBufs|
      && |freelist| + inCount + outCount == POOL_SIZE == |pool|
      && inCount <= BUFS_LIMIT && outCount <= BUFS_LIMIT
    }

    /** No buffer is ever lost: each one is free, or outstanding in exactly one class. */
    lemma BuffersPartitioned(b: Buf)
      requires Valid()
      ensures b in pool <==> b in freelist || b in inBufs || b in outBufs
      ensures !(b in freelist && b in inBufs) && !(b in freelist && b in outBufs) && !(b in inBufs && b in outBufs)
    {
      NoDupLength(freelist, pool - inBufs - outBufs);
    }

    twostate lemma Undisturbed()
      requires old(Valid()) && unchanged(this) && unchanged(pool)
      ensures Valid()
    {
    }

    /** `zb_init_buffers`. */
    constructor ()
      ensures Valid() && inBufs == outBufs == {} && |freelist| == POOL_SIZE && fresh(pool)
    {
      ghost var made: seq<Buf> := [];
      ghost var all: set<Buf> := {};
      var first: Buf? := null;
      for i := 0 to POOL_SIZE
        invariant |made| == |all| == i && first == if made == [] then null else made[0]
        invariant forall b :: b in all ==> fresh(b)
        invariant Linked(made, all)
      {
        var b := new Buf();
        b.next := first;
        first := b;
        made, all := [b] + made, all + {b};
      }
      head, inCount, outCount := first, 0, 0;
      pool, freelist, inBufs, outBufs := all, made, {}, {};
    }

    /** `zb_get_buf`: fails exactly when the class is at its own quota, whatever the other class does. */
    method GetBuf(isIn: bool) returns (buf: Buf?)
      requires Valid()
      modifies this, pool
      ensures Valid()
      ensures buf == null <==> old(Count(isIn)) == BUFS_LIMIT
      ensures Bufs(!isIn) == old(Bufs(!isIn))
      ensures buf == null ==> Bufs(isIn) == old(Bufs(isIn)) && freelist == old(freelist)
      ensures buf != null ==> buf in pool && buf !in old(Bufs(isIn)) && Bufs(isIn) == old(Bufs(isIn)) + {buf}
                              && buf.isIn == isIn && old(freelist) != [] && buf == old(freelist[0])
    {
      buf := null;
      if Count(isIn) < BUFS_LIMIT {
        buf := head;
        if buf != null {
          Claim(isIn);
        }
      }
    }

    /** Hands out the head of the freelist, counting it in its class. */
    method Claim(isIn: bool)
      requires Valid() && head != null && Count(isIn) < BUFS_LIMIT
      modifies this, pool
      ensures Valid() && Bufs(!isIn) == old(Bufs(!isIn)) && old(head).isIn == isIn
      ensures old(head) in pool && old(head) !in old(Bufs(isIn)) && Bufs(isIn) == old(Bufs(isIn)) + {old(head)}
    {
      ghost var buf := head;
      assert buf !in inBufs && buf !in outBufs;
      Detach(isIn);
      if isIn {
        inCount, inBufs := inCount + 1, inBufs + {buf};
      } else {
        outCount, outBufs := outCount + 1, outBufs + {buf};
      }
    }

    /** Unlinks the head of the freelist and marks its class. */
    method Detach(isIn: bool)
      requires head != null && freelist != [] && head == freelist[0] && Linked(freelist, pool)
      modifies this`head, this`freelist, head`isIn, head`free
      ensures freelist == old(freelist[1..]) && Linked(freelist, pool)
      ensures head == (if freelist == [] then null else freelist[0])
      ensures old(head).isIn == isIn && !old(head).free
    {
      head.isIn, head.free := isIn, false;
      head, freelist := head.next, freelist[1..];
    }

    /** The freelist part of `zb_free_buf`, which checks the count of the class and nothing else. */
    method Release(buf: Buf)
      requires head == (if freelist == [] then null else freelist[0]) && Linked(freelist, pool) && buf in pool
      requires Count(buf.isIn) > 0
      modifies this, buf
      ensures freelist == [buf] + old(freelist) && head == buf && buf.free && buf.isIn == old(buf.isIn)
      ensures Linked(freelist, pool) <==> buf !in old(freelist)
      ensures Bufs(buf.isIn) == old(Bufs(buf.isIn)) - {buf} && Bufs(!buf.isIn) == old(Bufs(!buf.isIn))
      ensures Count(buf.isIn) == old(Count(buf.isIn)) - 1 && Count(!buf.isIn) == old(Count(!buf.isIn))
    {
      if buf.isIn {
        inCount, inBufs := inCount - 1, inBufs - {buf};
      } else {
        outCount, outBufs := outCount - 1, outBufs - {buf};
      }
      Attach(buf);
    }

    /** An outstanding buffer is freed: the pool stays in order. */
    method PutBuf(buf: Buf)
      requires Valid() && buf in Bufs(buf.isIn)
      modifies this, buf
      ensures Valid() && freelist == [buf] + old(freelist) && buf.isIn == old(buf.isIn)
      ensures Bufs(buf.isIn) == old(Bufs(buf.isIn)) - {buf} && Bufs(!buf.isIn) == old(Bufs(!buf.isIn))
    {
      BuffersPartitioned(buf);
      Release(buf);
    }

    /** A buffer that is free already is freed again while its class has others outstanding: the pool
        is never in order afterwards, for the freelist holds the buffer twice. */
    method PutTwice(buf: Buf)
      requires Valid() && buf in pool && buf !in Bufs(buf.isIn) && Count(buf.isIn) > 0
      modifies this, buf
      ensures !Valid()
    {
      BuffersPartitioned(buf);
      Release(buf);
    }

    /** Puts a buffer at the head of the freelist. */
    method Attach(buf: Buf)
      requires head == (if freelist == [] then null else freelist[0]) && Linked(freelist, pool) && buf in pool
      modifies this`head, this`freelist, buf`next, buf`free
      ensures freelist == [buf] + old(freelist) && head == buf && buf.free
      ensures Linked(freelist, pool) <==> buf !in old(freelist)
    {
      ghost var q := freelist;
      buf.next := head;
      head := buf;
      freelist := [buf] + freelist;
      buf.free := true;
      if buf in q { FreedTwice(freelist); }
    }

    static lemma FreedTwice(q: seq<Buf>)
      requires q != [] && q[0] in q[1..]
      ensures !NoDup(q)
    {
      var k :| 0 <= k < |q| - 1 && q[1..][k] == q[0];
      assert q[k + 1] == q[0];
    }
  }

  // ---------------------------------------------------------------- waiting for a buffer

  datatype Home = OnFreelist | InQueue | OutQueue | Loose

  /** One element of `delayed_buf`; `home` is the list it is on. */
  class Waiter {
    var func: nat
    var next: Waiter?
    ghost var home: Home

    constructor ()
      ensures home == Loose
    {
      func, next, home := 0, null, Loose;
    }
  }

  /** A singly linked list with a tail pointer (`ZB_SL_LIST`, `ZB_STK`). */
  class WaitList {
    var head: Waiter?
    var tail: Waiter?
    ghost const pool: set<Waiter>
    ghost const home: Home
    ghost var q: seq<Waiter>
    /** The callbacks of the entries. */
    ghost var funcs: seq<nat>

    ghost predicate Valid()
      reads this, pool
    {
      && NoDup(q)
      && head == (if q == [] then null else q[0])
      && tail == (if q == [] then null else q[|q| - 1])
      && (forall i :: 0 <= i < |q| ==> q[i] in pool && q[i].home == home)
      && |funcs| == |q| && (forall i :: 0 <= i < |q| ==> funcs[i] == q[i].func)
      && (forall i {:trigger q[i].next} :: 0 <= i < |q| ==> q[i].next == if i + 1 < |q| then q[i + 1] else null)
    }

    /** Changes to entries that are elsewhere do not disturb this list. */
    twostate lemma Undisturbed()
      requires old(Valid()) && unchanged(this)
      requires forall e :: e in pool && old(e.home) == home ==> unchanged(e)
      ensures Valid()
    {
    }

    constructor (ghost all: set<Waiter>, ghost where: Home)
      ensures Valid() && q == [] && funcs == [] && pool == all && home == where
    {
      head, tail := null, null;
      pool, home, q, funcs := all, where, [], [];
    }

    /** `ZB_SL_LIST_INSERT_TAIL`. */
    method InsertTail(ent: Waiter)
      requires Valid() && ent in pool && ent.home == Loose && home != Loose
      modifies this, pool`next, ent`home
      ensures Valid() && q == old(q) + [ent] && funcs == old(funcs) + [ent.func] && ent.home == home
      ensures forall e :: e in pool && e.home != home ==> e.next == old(e.next)
    {
      ent.next := null;
      if tail != null {
        tail.next := ent;
        tail := ent;
      } else {
        head := ent;
        tail := ent;
      }
      q, funcs, ent.home := q + [ent], funcs + [ent.func], home;
    }

    /** `ZB_STK_PUSH`, on a list with a tail pointer (`ZB_SL_LIST_INSERT_HEAD`). */
    method InsertHead(ent: Waiter)
      requires Valid() && ent in pool && ent.home == Loose && home != Loose
      modifies this, ent`next, ent`home
      ensures Valid() && q == [ent] + old(q) && funcs == [ent.func] + old(funcs) && ent.home == home
    {
      ent.next := head;
      if head == null {
        tail := ent;
      }
      head := ent;
      q, funcs, ent.home := [ent] + q, [ent.func] + funcs, home;
    }

    /** `ZB_SL_LIST_CUT_HEAD` and `ZB_STK_POP`. */
    method CutHead() returns (ent: Waiter?)
      requires Valid() && home != Loose
      modifies this, pool`home
      ensures Valid() && (ent == null <==> old(q) == [])
      ensures ent == null ==> q == [] && funcs == []
      ensures ent != null ==> ent == old(q[0]) && q == old(q[1..]) && ent.home == Loose
                              && ent.func == old(funcs[0]) && funcs == old(funcs[1..])
      ensures forall e :: e in pool && e != ent ==> e.home == old(e.home)
    {
      ent := head;
      if head != null {
        head := head.next;
        if head == null {
          tail := null;
        }
        q, funcs, ent.home := q[1..], funcs[1..], Loose;
      }
    }
  }

  ghost predicate Apart(a: WaitList, b: WaitList)
  {
    a != b && a.pool == b.pool && a.home != b.home && a.home != Loose && b.home != Loose
  }

  /** Moves the head entry of `from` to the end of `to`, for callback `func`. */
  method MoveToTail(from: WaitList, to: WaitList, func: nat) returns (moved: bool)
    requires Apart(from, to) && from.Valid() && to.Valid()
    modifies from, to, from.pool
    ensures from.Valid() && to.Valid() && (moved <==> old(from.q) != [])
    ensures moved ==> to.funcs == old(to.funcs) + [func] && |from.q| == |old(from.q)| - 1
    ensures !moved ==> to.funcs == old(to.funcs) && from.q == []
    ensures forall e :: e in from.pool && old(e.home) != from.home && old(e.home) != to.home ==> unchanged(e)
  {
    var ent := from.CutHead();
    to.Undisturbed();
    moved := ent != null;
    if ent != null {
      ent.func := func;
      to.Undisturbed();
      to.InsertTail(ent);
    }
  }

  /** Moves the head entry of `from` onto the stack `to`. */
  method MoveToHead(from: WaitList, to: WaitList) returns (moved: bool, func: nat)
    requires Apart(from, to) && from.Valid() && to.Valid()
    modifies from, to, from.pool
    ensures from.Valid() && to.Valid() && (moved <==> old(from.q) != [])
    ensures moved ==> func == old(from.funcs[0]) && from.funcs == old(from.funcs[1..]) && |to.q| == |old(to.q)| + 1
    ensures !moved ==> from.q == [] && to.q == old(to.q)
    ensures forall e :: e in from.pool && old(e.home) != from.home && old(e.home) != to.home ==> unchanged(e)
  {
    var ent := from.CutHead();
    to.Undisturbed();
    moved, func := ent != null, 0;
    if ent != null {
      func := ent.func;
      to.InsertHead(ent);
    }
  }

  /** The three lists of `delayed_buf`: entries waiting for an in-buffer, for an out-buffer, and unused. */
  class WaitLists {
    const waitIn: WaitList
    const waitOut: WaitList
    const unused: WaitList
    ghost const pool: set<Waiter>

    ghost predicate Valid()
      reads this, waitIn, waitOut, unused, pool
    {
      && waitIn != waitOut && waitIn != unused && waitOut != unused
      && waitIn.pool == waitOut.pool == unused.pool == pool
      && waitIn.home == InQueue && waitOut.home == OutQueue && unused.home == OnFreelist
      && waitIn.Valid() && waitOut.Valid() && unused.Valid()
      && |waitIn.q| + |waitOut.q| + |unused.q| == BUF_Q_SIZE == |pool|
    }

    twostate lemma Undisturbed()
      requires old(Valid()) && unchanged(waitIn, waitOut, unused) && unchanged(pool)
      ensures Valid()
    {
    }

    function List(isIn: bool): WaitList
    {
      if isIn then waitIn else waitOut
    }

    /** The callbacks waiting for a buffer of a class, longest waiting first. */
    ghost function Waiting(isIn: bool): (r: seq<nat>)
      reads this, List(isIn)
    {
      List(isIn).funcs
    }

    static method NewWaiters() returns (made: seq<Waiter>, ghost all: set<Waiter>)
      ensures |made| == |all| == BUF_Q_SIZE && NoDup(made) && fresh(all)
      ensures forall j :: 0 <= j < |made| ==> made[j] in all && made[j].home == Loose
    {
      made, all := [], {};
      for i := 0 to BUF_Q_SIZE
        invariant |made| == |all| == i && NoDup(made) && fresh(all)
        invariant forall j :: 0 <= j < |made| ==> made[j] in all && made[j].home == Loose
      {
        var e := new Waiter();
        made, all := made + [e], all + {e};
      }
    }

    constructor ()
      ensures Valid() && Waiting(true) == Waiting(false) == [] && fresh(waitIn) && fresh(waitOut) && fresh(unused) && fresh(pool)
    {
      var made, all := NewWaiters();
      var qi := new WaitList(all, InQueue);
      var qo := new WaitList(all, OutQueue);
      var u := new WaitList(all, OnFreelist);
      waitIn, waitOut, unused, pool := qi, qo, u, all;
      Fill(u, made);
    }

    static method Fill(list: WaitList, made: seq<Waiter>)
      requires list.Valid() && list.q == [] && list.home != Loose && NoDup(made)
      requires forall j :: 0 <= j < |made| ==> made[j] in list.pool && made[j].home == Loose
      modifies list, list.pool
      ensures list.Valid() && |list.q| == |made|
    {
      for i := 0 to |made|
        invariant list.Valid() && |list.q| == i
        invariant forall j :: i <= j < |made| ==> made[j].home == Loose
      {
        list.InsertHead(made[i]);
      }
    }

    /** No waiter entry is ever lost: the freelist and the two queues together are the whole array. */
    lemma EntriesPartitioned(e: Waiter)
      requires Valid()
      ensures e in pool <==> e in waitIn.q || e in waitOut.q || e in unused.q
      ensures !(e in waitIn.q && e in waitOut.q) && !(e in waitIn.q && e in unused.q) && !(e in waitOut.q && e in unused.q)
    {
      var all := waitIn.q + waitOut.q + unused.q;
      assert NoDup(all);
      if e in pool && e !in all {
        NoDupLength(all, pool);
        assert false;
      }
    }

    /** Takes an unused entry for a callback and puts it last among those waiting for its class. */
    method Wait(func: nat, isIn: bool) returns (ok: bool)
      requires Valid()
      modifies List(isIn), unused, pool
      ensures Valid() && (ok <==> old(unused.q) != [])
      ensures Waiting(!isIn) == old(Waiting(!isIn))
      ensures Waiting(isIn) == if ok then old(Waiting(isIn)) + [func] else old(Waiting(isIn))
    {
      ok := MoveToTail(unused, List(isIn), func);
      List(!isIn).Undisturbed();
    }

    /** Takes the longest-waiting callback of a class, returning its entry to the freelist. */
    method Serve(isIn: bool) returns (found: bool, func: nat)
      requires Valid()
      modifies List(isIn), unused, pool
      ensures Valid() && (found <==> old(Waiting(isIn)) != [])
      ensures Waiting(!isIn) == old(Waiting(!isIn))
      ensures found ==> func == old(Waiting(isIn)[0]) && Waiting(isIn) == old(Waiting(isIn)[1..])
      ensures !found ==> Waiting(isIn) == []
    {
      found, func := MoveToHead(List(isIn), unused);
      List(!isIn).Undisturbed();
    }
  }

  /** The pool with its waiters. */
  class BufferManager {
    const bufs: BufferPool
    const waits: WaitLists

    ghost predicate Valid()
      reads this, bufs, bufs.pool, waits, waits.waitIn, waits.waitOut, waits.unused, waits.pool
    {
      && bufs.Valid() && waits.Valid()
      && WaitsOnlyWhenFull(false)
    }

    /** A callback waits for a buffer only while its class is exhausted. */
    ghost predicate WaitsOnlyWhenFull(isIn: bool)
      reads this, bufs, waits, waits.List(isIn)
    {
      waits.Waiting(isIn) != [] ==> bufs.Count(isIn) == BUFS_LIMIT
    }

    constructor ()
      ensures Valid() && waits.Waiting(true) == waits.Waiting(false) == [] && bufs.inBufs == bufs.outBufs == {}
    {
      bufs := new BufferPool();
      waits := new WaitLists();
    }

    method TakeAny(isIn: bool) returns (buf: Buf?)
      requires bufs.Valid() && waits.Valid()
      modifies bufs, bufs.pool
      ensures bufs.Valid() && waits.Valid() && (buf == null <==> old(bufs.Count(isIn)) == BUFS_LIMIT)
      ensures bufs.Bufs(!isIn) == old(bufs.Bufs(!isIn))
      ensures if buf == null then bufs.Bufs(isIn) == old(bufs.Bufs(isIn))
              else buf !in old(bufs.Bufs(isIn)) && bufs.Bufs(isIn) == old(bufs.Bufs(isIn)) + {buf}
                   && buf.isIn == isIn && old(bufs.freelist) != [] && buf == old(bufs.freelist[0])
    {
      buf := bufs.GetBuf(isIn);
      waits.Undisturbed();
    }

    /** `zb_get_in_buf`, `zb_get_out_buf`. */
    method Take(isIn: bool) returns (buf: Buf?)
      requires Valid()
      modifies bufs, bufs.pool
      ensures Valid() && (buf == null <==> old(bufs.Count(isIn)) == BUFS_LIMIT)
      ensures bufs.Bufs(!isIn) == old(bufs.Bufs(!isIn))
      ensures if buf == null then bufs.Bufs(isIn) == old(bufs.Bufs(isIn))
              else buf !in old(bufs.Bufs(isIn)) && bufs.Bufs(isIn) == old(bufs.Bufs(isIn)) + {buf}
      ensures old(WaitsOnlyWhenFull(true)) ==> WaitsOnlyWhenFull(true)
    {
      buf := TakeAny(isIn);
    }

    /** `zb_get_buf_delayed`: with a free buffer `func` is scheduled on it (`buf`) at once, else the
        callback waits, unless all waiter entries are taken. */
    method GetBufDelayed(func: nat, isIn: bool) returns (ok: bool, buf: Buf?)
      requires Valid()
      modifies bufs, bufs.pool, waits.waitIn, waits.waitOut, waits.unused, waits.pool
      ensures Valid() && (old(WaitsOnlyWhenFull(true)) ==> WaitsOnlyWhenFull(true))
      ensures ok <==> old(bufs.Count(isIn)) < BUFS_LIMIT || old(waits.unused.q) != []
      ensures buf == null <==> old(bufs.Count(isIn)) == BUFS_LIMIT
      ensures waits.Waiting(!isIn) == old(waits.Waiting(!isIn)) && bufs.Bufs(!isIn) == old(bufs.Bufs(!isIn))
      ensures buf != null ==> buf !in old(bufs.Bufs(isIn)) && bufs.Bufs(isIn) == old(bufs.Bufs(isIn)) + {buf}
                              && waits.Waiting(isIn) == old(waits.Waiting(isIn))
      ensures buf == null ==> bufs.Bufs(isIn) == old(bufs.Bufs(isIn))
                              && waits.Waiting(isIn) == old(waits.Waiting(isIn)) + if ok then [func] else []
    {
      buf := Take(isIn);
      ok := true;
      if buf == null {
        ok := WaitFor(func, isIn);
      }
    }

    method WaitFor(func: nat, isIn: bool) returns (ok: bool)
      requires Valid() && bufs.Count(isIn) == BUFS_LIMIT
      modifies waits.waitIn, waits.waitOut, waits.unused, waits.pool
      ensures Valid() && (old(WaitsOnlyWhenFull(true)) ==> WaitsOnlyWhenFull(true))
      ensures ok <==> old(waits.unused.q) != []
      ensures waits.Waiting(!isIn) == old(waits.Waiting(!isIn))
      ensures waits.Waiting(isIn) == old(waits.Waiting(isIn)) + if ok then [func] else []
    {
      ok := waits.Wait(func, isIn);
      bufs.Undisturbed();
    }

    /** The first half of `zb_free_buf`: the buffer goes to the head of the freelist. */
    method Put(buf: Buf)
      requires bufs.Valid() && waits.Valid() && buf in bufs.Bufs(buf.isIn)
      modifies bufs, buf
      ensures bufs.Valid() && waits.Valid() && buf.isIn == old(buf.isIn) && bufs.Count(buf.isIn) == old(bufs.Count(buf.isIn)) - 1
      ensures bufs.freelist == [buf] + old(bufs.freelist)
      ensures bufs.Bufs(buf.isIn) == old(bufs.Bufs(buf.isIn)) - {buf} && bufs.Bufs(!buf.isIn) == old(bufs.Bufs(!buf.isIn))
    {
      bufs.PutBuf(buf);
      waits.Undisturbed();
    }

    /** The second half of `zb_free_buf`: the buffer just freed is taken back for the longest-waiting callback. */
    method PassOn(buf: Buf) returns (next: Option<nat>)
      requires bufs.Valid() && waits.Valid() && bufs.Count(buf.isIn) < BUFS_LIMIT
      requires bufs.freelist != [] && bufs.freelist[0] == buf
      modifies bufs, bufs.pool, waits.waitIn, waits.waitOut, waits.unused, waits.pool
      ensures bufs.Valid() && waits.Valid() && buf.isIn == old(buf.isIn)
      ensures waits.Waiting(!buf.isIn) == old(waits.Waiting(!buf.isIn)) && bufs.Bufs(!buf.isIn) == old(bufs.Bufs(!buf.isIn))
      ensures next.Some? <==> old(waits.Waiting(buf.isIn)) != []
      ensures next.Some? ==> next.value == old(waits.Waiting(buf.isIn)[0])
                             && waits.Waiting(buf.isIn) == old(waits.Waiting(buf.isIn)[1..])
                             && bufs.Bufs(buf.isIn) == old(bufs.Bufs(buf.isIn)) + {buf} && buf !in old(bufs.Bufs(buf.isIn))
      ensures next.None? ==> waits.Waiting(buf.isIn) == [] && bufs.Bufs(buf.isIn) == old(bufs.Bufs(buf.isIn))
    {
      var found, func := ServeWaiter(buf.isIn);
      if found {
        var again := TakeAny(buf.isIn);
        next := Some(func);
      } else {
        next := None;
      }
    }

    method ServeWaiter(isIn: bool) returns (found: bool, func: nat)
      requires bufs.Valid() && waits.Valid()
      modifies waits.List(isIn), waits.unused, waits.pool
      ensures bufs.Valid() && waits.Valid() && (found <==> old(waits.Waiting(isIn)) != [])
      ensures waits.Waiting(!isIn) == old(waits.Waiting(!isIn))
      ensures found ==> func == old(waits.Waiting(isIn)[0]) && waits.Waiting(isIn) == old(waits.Waiting(isIn)[1..])
      ensures !found ==> waits.Waiting(isIn) == []
    {
      found, func := waits.Serve(isIn);
      bufs.Undisturbed();
    }

    /** `zb_free_buf`: with callbacks waiting for the class (and, for an in-buffer, the receiver not in
        need) the longest-waiting one is scheduled on this very buffer; otherwise it becomes free. */
    method FreeBuf(buf: Buf, rxNeedBuf: bool) returns (next: Option<nat>)
      requires Valid() && buf in bufs.Bufs(buf.isIn)
      modifies bufs, bufs.pool, waits.waitIn, waits.waitOut, waits.unused, waits.pool
      ensures Valid() && (old(WaitsOnlyWhenFull(true)) && !rxNeedBuf ==> WaitsOnlyWhenFull(true))
      ensures buf.isIn == old(buf.isIn)
      ensures waits.Waiting(!buf.isIn) == old(waits.Waiting(!buf.isIn)) && bufs.Bufs(!buf.isIn) == old(bufs.Bufs(!buf.isIn))
      ensures next.Some? <==> old(waits.Waiting(buf.isIn)) != [] && !(buf.isIn && rxNeedBuf)
      ensures next.Some? ==> next.value == old(waits.Waiting(buf.isIn)[0])
                             && waits.Waiting(buf.isIn) == old(waits.Waiting(buf.isIn)[1..])
                             && bufs.Bufs(buf.isIn) == old(bufs.Bufs(buf.isIn))
      ensures next.None? ==> waits.Waiting(buf.isIn) == old(waits.Waiting(buf.isIn))
                             && bufs.Bufs(buf.isIn) == old(bufs.Bufs(buf.isIn)) - {buf}
    {
      ghost var held := bufs.Bufs(buf.isIn);
      assert held - {buf} + {buf} == held;
      Put(buf);
      if buf.isIn && rxNeedBuf {
        next := None;
      } else {
        next := PassOn(buf);
      }
    }
  }
}
