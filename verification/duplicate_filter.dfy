/** APS duplicate rejection (aps/aps_dups.c): ageing counters kept in the address table and driven
    by an alarm that reschedules itself while one of them is running. */
module DuplicateFilter {
  import opened Types
  import opened AddressIndex
  import opened AddressTables
  import opened AddressOps

  const DUP_CLOCK_START: nat := 3

  // ---------------------------------------------------------------- the history

  /** What the detector remembers happening: a packet it recorded, or a tick of its alarm. */
  datatype Event = Packet(src: u16, counter: byte) | Tick

  /** The counter of the last packet from `src` and the ticks since then. */
  function LastSeen(trace: seq<Event>, src: u16): Option<(byte, nat)> {
    if trace == [] then None
    else
      var e, before := trace[|trace| - 1], trace[..|trace| - 1];
      match e
      case Packet(s, counter) => if s == src then Some((counter, 0)) else LastSeen(before, src)
      case Tick =>
        match LastSeen(before, src)
        case None => None
        case Some(seen) => Some((seen.0, seen.1 + 1))
  }

  /** A packet from `src` was seen fewer than three ticks ago. */
  predicate Recent(trace: seq<Event>, src: u16) {
    LastSeen(trace, src).Some? && LastSeen(trace, src).value.1 < DUP_CLOCK_START
  }

  /** The previous packet from `src` had this counter and fewer than three ticks have passed. */
  predicate IsDuplicate(trace: seq<Event>, src: u16, counter: byte) {
    Recent(trace, src) && LastSeen(trace, src).value.0 == counter
  }

  /** What an entry's clock shows `ticks` after its last packet. */
  function ClockAfter(ticks: nat): nat { if ticks < DUP_CLOCK_START then DUP_CLOCK_START - ticks else 0 }

  lemma AfterPacket(trace: seq<Event>, src: u16, counter: byte, other: u16)
    ensures LastSeen(trace + [Packet(src, counter)], other) == if other == src then Some((counter, 0)) else LastSeen(trace, other)
  {
    assert (trace + [Packet(src, counter)])[..|trace|] == trace;
  }

  lemma AfterTick(trace: seq<Event>, src: u16)
    ensures LastSeen(trace + [Tick], src)
            == if LastSeen(trace, src).None? then None
               else Some((LastSeen(trace, src).value.0, LastSeen(trace, src).value.1 + 1))
  {
    assert (trace + [Tick])[..|trace|] == trace;
  }

  /** The k-th event of the history is the last packet from `src`. */
  ghost predicate LastFrom(trace: seq<Event>, src: u16, k: int) {
    0 <= k < |trace| && trace[k].Packet? && trace[k].src == src
    && forall j :: k < j < |trace| ==> !(trace[j].Packet? && trace[j].src == src)
  }

  lemma {:induction false} LastSeenAt(trace: seq<Event>, src: u16, k: nat)
    requires LastFrom(trace, src, k)
    ensures LastSeen(trace, src) == Some((trace[k].counter, multiset(trace[k + 1..])[Tick]))
  {
    var n := |trace| - 1;
    if k < n {
      LastSeenAt(trace[..n], src, k);
      assert trace[k + 1..] == trace[..n][k + 1..] + [trace[n]];
    }
  }

  lemma {:induction false} LastSeenNone(trace: seq<Event>, src: u16)
    ensures LastSeen(trace, src).Some? ==> exists k: nat :: LastFrom(trace, src, k)
  {
    if LastSeen(trace, src).Some? {
      var n := |trace| - 1;
      if trace[n].Packet? && trace[n].src == src {
        assert LastFrom(trace, src, n);
      } else {
        LastSeenNone(trace[..n], src);
        var k: nat :| LastFrom(trace[..n], src, k);
        assert LastFrom(trace, src, k);
      }
    }
  }

  /** A packet is a duplicate exactly if the last one from its source had the same counter and at most two
      ticks have passed since. */
  lemma DuplicateMeans(trace: seq<Event>, src: u16, counter: byte)
    ensures IsDuplicate(trace, src, counter)
            <==> exists k: nat :: LastFrom(trace, src, k) && trace[k].counter == counter && multiset(trace[k + 1..])[Tick] <= 2
  {
    LastSeenNone(trace, src);
    if k: nat :| LastFrom(trace, src, k) {
      LastSeenAt(trace, src, k);
      assert forall j: nat :: LastFrom(trace, src, j) ==> j == k;
    }
  }

  // ---------------------------------------------------------------- table and history agree

  /** The entry's clock and counter tell the history of its short address. */
  predicate Remembers(e: AddrEnt, trace: seq<Event>) {
    match LastSeen(trace, e.addr)
    case None => e.dupClock == 0
    case Some(seen) => e.dupClock == ClockAfter(seen.1) && (e.dupClock != 0 ==> e.dupCounter == seen.0)
  }

  /** `ix` lists an entry with short address `src`. */
  ghost predicate HasEntry(m: seq<AddrEnt>, ix: set<int>, src: u16) {
    exists r :: r in ix && 0 <= r < |m| && m[r].addr == src
  }

  ghost predicate ListedRemember(m: seq<AddrEnt>, ix: set<int>, trace: seq<Event>) {
    forall r :: r in ix && 0 <= r < |m| ==> Remembers(m[r], trace)
  }

  ghost predicate RecentListed(m: seq<AddrEnt>, ix: set<int>, trace: seq<Event>) {
    forall src :: Recent(trace, src) ==> HasEntry(m, ix, src)
  }

  ghost predicate UnusedQuiet(m: seq<AddrEnt>) {
    forall r :: 0 <= r < |m| && !m[r].used ==> m[r].dupClock == 0
  }

  /** Every listed entry tells the history of its address, every source seen in the last three ticks is
      listed, and no unused entry has a running clock. */
  ghost predicate Agrees(m: seq<AddrEnt>, ix: set<int>, trace: seq<Event>) {
    ListedRemember(m, ix, trace) && RecentListed(m, ix, trace) && UnusedQuiet(m)
  }

  /** Listed entries are used and have different addresses, as in every sound index. */
  ghost predicate Proper(m: seq<AddrEnt>, ix: set<int>) {
    && (forall r :: r in ix ==> 0 <= r < |m| && m[r].used)
    && (forall r, q :: r in ix && q in ix && r != q ==> m[r].addr != m[q].addr)
  }

  lemma SoundProper(m: seq<AddrEnt>, ss: seq<byte>, n: nat)
    requires Sound(m, ss, n, -1)
    ensures Proper(m, ListedSet(ss, n))
  {
    var ix := ListedSet(ss, n);
    forall r | r in ix ensures 0 <= r < |m| && m[r].used {
      ListedKnown(m, ss, n, r);
    }
    forall r, q | r in ix && q in ix && r != q ensures m[r].addr != m[q].addr {
      var j :| 0 <= j < n && ss[j] == r;
      var k :| 0 <= k < n && ss[k] == q;
      assert m[ss[j]].addr != m[ss[k]].addr;
    }
  }

  /** Agreement depends on addresses, clocks and counters only. */
  predicate SameForDups(e: AddrEnt, f: AddrEnt) {
    e.used == f.used && e.addr == f.addr && e.dupClock == f.dupClock && e.dupCounter == f.dupCounter
  }

  lemma AgreesFrame(m: seq<AddrEnt>, m': seq<AddrEnt>, ix: set<int>, trace: seq<Event>)
    requires |m| == |m'| && forall r :: 0 <= r < |m| ==> SameForDups(m[r], m'[r])
    requires Agrees(m, ix, trace)
    ensures Agrees(m', ix, trace)
  {
    forall src | Recent(trace, src) ensures HasEntry(m', ix, src) {
      assert HasEntry(m, ix, src);
      var r :| r in ix && 0 <= r < |m| && m[r].addr == src;
      assert m'[r].addr == src;
    }
    forall r | r in ix && 0 <= r < |m'| ensures Remembers(m'[r], trace) {
      assert Remembers(m[r], trace) && SameForDups(m[r], m'[r]);
    }
  }

  // ---------------------------------------------------------------- one packet, one tick, one lookup

  /** `ref` is the entry of `src`, found or made, and carries the packet's counter and a full clock. */
  ghost predicate Stamped(m: seq<AddrEnt>, m': seq<AddrEnt>, src: u16, counter: byte, ref: nat)
    requires ref < |m|
  {
    && OthersSame(m, m', ref)
    && m'[ref].used && m'[ref].addr == src && m'[ref].dupCounter == counter && m'[ref].dupClock == DUP_CLOCK_START
    && (m[ref].used ==> m'[ref].ieee == m[ref].ieee)
  }

  /** After the entry of `src` has been found or made and stamped, the table agrees with the history
      that includes the packet; a source without a short address leaves no trace. */
  lemma PacketAgrees(
    m: seq<AddrEnt>, ix: set<int>, m': seq<AddrEnt>, trace: seq<Event>, src: u16, counter: byte, ref: nat)
    requires Agrees(m, ix, trace) && ref < |m| && Stamped(m, m', src, counter, ref)
    requires forall r :: r in ix && r != ref && 0 <= r < |m| ==> m[r].addr != src
    requires src == UNKNOWN_SHORT ==> ref !in ix
    requires ref in ix ==> m[ref].addr == src
    ensures src != UNKNOWN_SHORT ==> Agrees(m', ix + {ref}, trace + [Packet(src, counter)])
    ensures src == UNKNOWN_SHORT ==> Agrees(m', ix, trace)
  {
    var known := src != UNKNOWN_SHORT;
    var trace', ix' := if known then trace + [Packet(src, counter)] else trace, if known then ix + {ref} else ix;
    forall r | r in ix' && 0 <= r < |m'| ensures Remembers(m'[r], trace') {
      AfterPacket(trace, src, counter, m'[r].addr);
      if r != ref { assert Remembers(m[r], trace) && SameButClock(m[r], m'[r]); }
    }
    forall x | Recent(trace', x) ensures HasEntry(m', ix', x) {
      AfterPacket(trace, src, counter, x);
      if known && x == src {
        assert m'[ref].addr == x && ref in ix';
      } else {
        assert HasEntry(m, ix, x);
        var r :| r in ix && 0 <= r < |m| && m[r].addr == x;
        assert r != ref ==> SameButClock(m[r], m'[r]);
        assert m'[r].addr == x && r in ix';
      }
    }
    assert forall r :: 0 <= r < |m| && r != ref ==> SameButClock(m[r], m'[r]);
  }

  function Aged(e: AddrEnt): AddrEnt {
    if e.used && e.dupClock > 0 then e.(dupClock := e.dupClock - 1) else e
  }

  ghost predicate AllAged(m: seq<AddrEnt>, m': seq<AddrEnt>, k: nat) {
    |m| == |m'| && k <= |m| && (forall r :: 0 <= r < |m| ==> m'[r] == if r < k then Aged(m[r]) else m[r])
  }

  lemma TickAgrees(m: seq<AddrEnt>, ix: set<int>, m': seq<AddrEnt>, trace: seq<Event>)
    requires Agrees(m, ix, trace) && AllAged(m, m', |m|) && Proper(m, ix)
    ensures Agrees(m', ix, trace + [Tick])
  {
    forall r | r in ix && 0 <= r < |m'| ensures Remembers(m'[r], trace + [Tick]) {
      assert Remembers(m[r], trace) && m[r].used;
      AfterTick(trace, m[r].addr);
    }
    forall x | Recent(trace + [Tick], x) ensures HasEntry(m', ix, x) {
      AfterTick(trace, x);
      assert HasEntry(m, ix, x);
      var r :| r in ix && 0 <= r < |m| && m[r].addr == x;
      assert m'[r].addr == x;
    }
  }

  /** A lookup by another component, which touches an entry or makes a new one, keeps agreement. */
  lemma LookupAgrees(
    m: seq<AddrEnt>, ix: set<int>, m': seq<AddrEnt>, ix': set<int>, trace: seq<Event>,
    s: Option<nat>, code: Option<Code>, short: u16, create: bool, lock: bool, ret: Ret, ref: nat)
    requires Agrees(m, ix, trace) && |m| == |m'| == TABLE_SIZE && (s.Some? ==> s.value < TABLE_SIZE) && Proper(m, ix)
    requires LookedUp(m, ix, m', ix', s, code, short, create, lock, ret, ref)
    requires short != UNKNOWN_SHORT && s.None? ==> !HasEntry(m, ix, short)
    ensures Agrees(m', ix', trace)
  {
    if s.Some? {
      AgreesFrame(m, m', ix, trace);
    } else if create && !Full(m) {
      assert forall r :: 0 <= r < |m| && r != ref ==> SameButClock(m[r], m'[r]);
      forall r | r in ix' && 0 <= r < |m'| ensures Remembers(m'[r], trace) {
        if r != ref { assert Remembers(m[r], trace); } else { assert r !in ix && !Recent(trace, short); }
      }
      forall x | Recent(trace, x) ensures HasEntry(m', ix', x) {
        assert HasEntry(m, ix, x);
        var r :| r in ix && 0 <= r < |m| && m[r].addr == x;
        assert r != ref && m'[r].addr == x;
      }
    }
  }

  // ---------------------------------------------------------------- deletions and moves

  ghost predicate Quiet(m: seq<AddrEnt>, s: set<int>) {
    forall q :: q in s && 0 <= q < |m| ==> m[q].dupClock == 0
  }

  /** A deletion keeps agreement exactly if neither the entry deleted nor one dropped from the index
      with it has a running clock. */
  lemma DeleteAgrees(m: seq<AddrEnt>, ix: set<int>, d: nat, lost: set<int>, trace: seq<Event>)
    requires Agrees(m, ix, trace) && Proper(m, ix) && d < |m| && lost <= ix
    ensures var m', ix' := m[d := m[d].(used := false)], ix - {d} - lost;
            && ListedRemember(m', ix', trace)
            && (Agrees(m', ix', trace) <==> m[d].dupClock == 0 && Quiet(m, lost))
  {
    var m', ix' := m[d := m[d].(used := false)], ix - {d} - lost;
    forall r | r in ix' && 0 <= r < |m'| ensures Remembers(m'[r], trace) {
      assert Remembers(m[r], trace);
    }
    if m[d].dupClock == 0 && Quiet(m, lost) {
      forall x | Recent(trace, x) ensures HasEntry(m', ix', x) {
        assert HasEntry(m, ix, x);
        var r :| r in ix && 0 <= r < |m| && m[r].addr == x;
        assert Remembers(m[r], trace);
        assert r in ix' && m'[r].addr == x;
      }
    }
    if Agrees(m', ix', trace) {
      assert m'[d].dupClock == 0;
      forall q | q in lost && 0 <= q < |m| ensures m[q].dupClock == 0 {
        LostIsQuiet(m, ix, m', ix', q, trace);
      }
    }
  }

  /** An entry that was dropped from the index of a table that still agrees is quiet. */
  lemma LostIsQuiet(m: seq<AddrEnt>, ix: set<int>, m': seq<AddrEnt>, ix': set<int>, q: nat, trace: seq<Event>)
    requires q in ix && q < |m| == |m'| && q !in ix' && Remembers(m[q], trace) && Proper(m, ix)
    requires RecentListed(m', ix', trace)
    requires forall r :: r in ix' && 0 <= r < |m| && m'[r].addr == m[q].addr && Recent(trace, m[q].addr) ==> r in ix && m[r].addr == m'[r].addr
    ensures m[q].dupClock == 0
  {
    assert Recent(trace, m[q].addr) ==> HasEntry(m', ix', m[q].addr);
  }

  /** Giving entry `ref` another short address, of no recent source, keeps agreement exactly if there was
      agreement before and neither that entry nor one dropped from the index has a running clock. */
  lemma MoveAgrees(m: seq<AddrEnt>, ix: set<int>, m': seq<AddrEnt>, ref: nat, lost: set<int>, short: u16, trace: seq<Event>)
    requires ListedRemember(m, ix, trace) && Proper(m, ix) && ref < |m| == |m'| && lost <= ix && ref !in lost
    requires forall r :: 0 <= r < |m| && r != ref ==> SameForDups(m[r], m'[r])
    requires SameForDups(m[ref].(addr := short), m'[ref]) && m[ref].used && m[ref].addr != short
    requires UnusedQuiet(m) ==> !Recent(trace, short)
    ensures var ix' := ix - {ref} - lost + {ref};
            Agrees(m', ix', trace) <==> Agrees(m, ix, trace) && m[ref].dupClock == 0 && Quiet(m, lost)
  {
    var ix' := ix - {ref} - lost + {ref};
    assert UnusedQuiet(m) <==> UnusedQuiet(m') by {
      assert forall r :: 0 <= r < |m| ==> m[r].used == m'[r].used && m[r].dupClock == m'[r].dupClock;
    }
    if Agrees(m, ix, trace) && m[ref].dupClock == 0 && Quiet(m, lost) {
      MoveKeeps(m, ix, m', ref, lost, short, trace);
    }
    if Agrees(m', ix', trace) {
      MoveShows(m, ix, m', ref, lost, short, trace);
    }
  }

  lemma MoveKeeps(m: seq<AddrEnt>, ix: set<int>, m': seq<AddrEnt>, ref: nat, lost: set<int>, short: u16, trace: seq<Event>)
    requires Agrees(m, ix, trace) && Proper(m, ix) && ref < |m| == |m'| && lost <= ix && UnusedQuiet(m')
    requires forall r :: 0 <= r < |m| && r != ref ==> SameForDups(m[r], m'[r])
    requires SameForDups(m[ref].(addr := short), m'[ref])
    requires !Recent(trace, short) && m[ref].dupClock == 0 && Quiet(m, lost)
    ensures Agrees(m', ix - {ref} - lost + {ref}, trace)
  {
    var ix' := ix - {ref} - lost + {ref};
    forall r | r in ix' && 0 <= r < |m'| ensures Remembers(m'[r], trace) {
      if r != ref { assert Remembers(m[r], trace); }
    }
    forall x | Recent(trace, x) ensures HasEntry(m', ix', x) {
      assert HasEntry(m, ix, x);
      var r :| r in ix && 0 <= r < |m| && m[r].addr == x;
      assert Remembers(m[r], trace);
      assert r in ix' && m'[r].addr == x;
    }
  }

  lemma MoveShows(m: seq<AddrEnt>, ix: set<int>, m': seq<AddrEnt>, ref: nat, lost: set<int>, short: u16, trace: seq<Event>)
    requires ListedRemember(m, ix, trace) && Proper(m, ix) && ref < |m| == |m'| && lost <= ix && ref !in lost
    requires forall r :: 0 <= r < |m| && r != ref ==> SameForDups(m[r], m'[r])
    requires SameForDups(m[ref].(addr := short), m'[ref])
    requires UnusedQuiet(m) && !Recent(trace, short)
    requires Agrees(m', ix - {ref} - lost + {ref}, trace)
    ensures Agrees(m, ix, trace) && m[ref].dupClock == 0 && Quiet(m, lost)
  {
    var ix' := ix - {ref} - lost + {ref};
    assert Remembers(m'[ref], trace);
    forall q | q in lost && 0 <= q < |m| ensures m[q].dupClock == 0 {
      assert Remembers(m[q], trace);
      LostIsQuiet(m, ix, m', ix', q, trace);
    }
    forall x | Recent(trace, x) ensures HasEntry(m, ix, x) {
      assert HasEntry(m', ix', x);
      var r :| r in ix' && 0 <= r < |m'| && m'[r].addr == x;
      assert r != ref && r in ix && m[r].addr == x;
    }
  }

  /** Whether an update leaves the running clocks alone: every entry it deletes, drops from the index or
      gives another short address has a stopped one. */
  ghost predicate UpdateQuiet(m: seq<AddrEnt>, ss: seq<byte>, n: nat, c: Code, short: u16)
    requires |m| == TABLE_SIZE && n < |ss|
  {
    match PlanFor(m, ss, n, c, short)
    case Take(r) => m[r].addr == short || (m[r].dupClock == 0 && Quiet(m, LostSet(ss, n, r)))
    case Replace(g, r) =>
      && m[g].dupClock == 0 && Quiet(m, LostSet(ss, n, g))
      && (m[r].addr == short
          || (m[r].dupClock == 0 && Quiet(m, LostSet(DelIndex(ss, n, g).0, DelIndex(ss, n, g).1, r))))
    case _ => true
  }

  lemma TakeAgrees(m: seq<AddrEnt>, ss: seq<byte>, n: nat, m': seq<AddrEnt>, r: nat, short: u16, trace: seq<Event>)
    requires Sound(m, ss, n, -1) && ListedRemember(m, ListedSet(ss, n), trace) && Proper(m, ListedSet(ss, n))
    requires r < TABLE_SIZE && |m'| == TABLE_SIZE && m[r].used
    requires forall q :: 0 <= q < |m| && q != r ==> SameForDups(m[q], m'[q])
    requires SameForDups(m[r].(addr := short), m'[r])
    requires m[r].addr != short && UnusedQuiet(m) ==> !Recent(trace, short)
    ensures Agrees(m', Relisted(m, ss, n, r, short), trace) <==>
              Agrees(m, ListedSet(ss, n), trace)
              && (m[r].addr == short || (m[r].dupClock == 0 && Quiet(m, LostSet(ss, n, r))))
  {
    var ix := ListedSet(ss, n);
    if m[r].addr == short {
      if Agrees(m, ix, trace) { AgreesFrame(m, m', ix, trace); }
      if Agrees(m', ix, trace) { AgreesFrame(m', m, ix, trace); }
    } else {
      DelIndexSet(m, ss, n, r);
      LostListed(m, ss, n, r);
      MoveAgrees(m, ix, m', r, LostSet(ss, n, r), short, trace);
    }
  }

  lemma LostListed(m: seq<AddrEnt>, ss: seq<byte>, n: nat, r: byte)
    requires Sound(m, ss, n, -1)
    ensures LostSet(ss, n, r) <= ListedSet(ss, n) && r as int !in LostSet(ss, n, r)
  {
    if Loses(ss, n, r) { LostEntry(m, ss, n, -1, r); }
  }

  lemma FindListed(m: seq<AddrEnt>, ss: seq<byte>, n: nat, short: u16)
    requires Sound(m, ss, n, -1)
    ensures HasEntry(m, ListedSet(ss, n), short) <==> IndexFind(m, ss, n, short).Some?
  {
    if HasEntry(m, ListedSet(ss, n), short) {
      var r :| r in ListedSet(ss, n) && 0 <= r < |m| && m[r].addr == short;
      FindIs(m, ss, n, short, r);
    }
    if IndexFind(m, ss, n, short).Some? {
      assert IndexFind(m, ss, n, short).value in ListedSet(ss, n);
    }
  }

  /** A deletion followed by a change of another entry's address. */
  lemma ReplaceAgrees(m: seq<AddrEnt>, ss: seq<byte>, n: nat, m': seq<AddrEnt>, g: nat, r: nat, short: u16, trace: seq<Event>)
    requires Sound(m, ss, n, -1) && Agrees(m, ListedSet(ss, n), trace) && |m'| == TABLE_SIZE
    requires g < TABLE_SIZE && r < TABLE_SIZE && g != r && m[r].used
    requires m[r].addr != short ==> g in ListedSet(ss, n) && m[g].addr == short
    requires forall q :: 0 <= q < |m| && q != r ==> SameForDups(m[g := m[g].(used := false)][q], m'[q])
    requires SameForDups(m[r].(addr := short), m'[r])
    ensures var (ss1, n1) := DelIndex(ss, n, g);
            Agrees(m', Relisted(m, ss1, n1, r, short), trace) <==>
              && m[g].dupClock == 0 && Quiet(m, LostSet(ss, n, g))
              && (m[r].addr == short || (m[r].dupClock == 0 && Quiet(m, LostSet(ss1, n1, r))))
  {
    var ix := ListedSet(ss, n);
    var m1 := m[g := m[g].(used := false)];
    var (ss1, n1) := DelIndex(ss, n, g);
    DeletedState(m, ss, n, g, trace);
    assert m[r].addr != short && UnusedQuiet(m1) ==> !Recent(trace, short) by {
      if m[r].addr != short && UnusedQuiet(m1) {
        assert m1[g].dupClock == 0 && Remembers(m[g], trace);
      }
    }
    TakeAgrees(m1, ss1, n1, m', r, short, trace);
    SameLost(m, m1, ss1, n1, r);
  }

  lemma SameLost(m: seq<AddrEnt>, m1: seq<AddrEnt>, ss: seq<byte>, n: nat, r: byte)
    requires |m| == |m1| && n < |ss| && forall q :: 0 <= q < |m| ==> m1[q].dupClock == m[q].dupClock
    ensures Quiet(m1, LostSet(ss, n, r)) <==> Quiet(m, LostSet(ss, n, r))
  {
  }

  /** The table between the two steps. */
  lemma DeletedState(m: seq<AddrEnt>, ss: seq<byte>, n: nat, g: nat, trace: seq<Event>)
    requires Sound(m, ss, n, -1) && Agrees(m, ListedSet(ss, n), trace) && g < TABLE_SIZE
    ensures var m1 := m[g := m[g].(used := false)];
            var (ss1, n1) := DelIndex(ss, n, g);
            && Sound(m1, ss1, n1, -1) && Proper(m1, ListedSet(ss1, n1)) && ListedRemember(m1, ListedSet(ss1, n1), trace)
            && (Agrees(m1, ListedSet(ss1, n1), trace) <==> m[g].dupClock == 0 && Quiet(m, LostSet(ss, n, g)))
  {
    var m1 := m[g := m[g].(used := false)];
    var (ss1, n1) := DelIndex(ss, n, g);
    SoundProper(m, ss, n);
    LostListed(m, ss, n, g);
    DelIndexSet(m, ss, n, g);
    DeleteAgrees(m, ListedSet(ss, n), g, LostSet(ss, n, g), trace);
    DelIndexSound(m, ss, n, g);
    assert Sound(m1, ss1, n1, -1) by { ExcludedRewrite(m, ss1, n1, g, m1[g]); }
    SoundProper(m1, ss1, n1);
  }

  lemma UpdateTakes(
    m: seq<AddrEnt>, ss: seq<byte>, n: nat, m': seq<AddrEnt>, ix': set<int>,
    c: Code, short: u16, lock: bool, ret: Ret, ref: nat, trace: seq<Event>)
    requires Sound(m, ss, n, -1) && UniqueIeee(m) && Agrees(m, ListedSet(ss, n), trace) && |m'| == TABLE_SIZE
    requires Updated(m, ss, n, m', ix', c, short, lock, ret, ref)
    requires PlanFor(m, ss, n, c, short).Take?
    ensures Agrees(m', ix', trace) <==> UpdateQuiet(m, ss, n, c, short)
  {
    var r := PlanFor(m, ss, n, c, short).ref;
    SoundProper(m, ss, n);
    FindListed(m, ss, n, short);
    TakeFree(m, ss, n, c, short);
    TakeAgrees(m, ss, n, m', r, short, trace);
  }

  /** One of the two entries that disagree is the listed one with the short address. */
  lemma ReplaceShort(m: seq<AddrEnt>, ss: seq<byte>, n: nat, c: Code, short: u16)
    requires |m| == TABLE_SIZE && n <= |ss| && PlanFor(m, ss, n, c, short).Replace?
    ensures var Replace(g, r) := PlanFor(m, ss, n, c, short);
            m[r].addr != short ==> g in ListedSet(ss, n) && m[g].addr == short
  {
  }

  lemma UpdateReplaces(
    m: seq<AddrEnt>, ss: seq<byte>, n: nat, m': seq<AddrEnt>, ix': set<int>,
    c: Code, short: u16, lock: bool, ret: Ret, ref: nat, trace: seq<Event>)
    requires Sound(m, ss, n, -1) && UniqueIeee(m) && Agrees(m, ListedSet(ss, n), trace) && |m'| == TABLE_SIZE
    requires Updated(m, ss, n, m', ix', c, short, lock, ret, ref)
    requires PlanFor(m, ss, n, c, short).Replace?
    ensures Agrees(m', ix', trace) <==> UpdateQuiet(m, ss, n, c, short)
  {
    var Replace(g, r) := PlanFor(m, ss, n, c, short);
    assert m[g].used && m[r].used by { ReplaceFree(m, ss, n, c, short); }
    assert m[r].addr != short ==> g in ListedSet(ss, n) && m[g].addr == short by { ReplaceShort(m, ss, n, c, short); }
    var m1 := m[g := m[g].(used := false)];
    assert m' == m1[r := m'[r]] && m'[r] == Touched(Readdressed(m[r], c, short), lock);
    ReplaceAgrees(m, ss, n, m', g, r, short, trace);
  }

  /** An update keeps table and history in agreement exactly if it leaves the running clocks alone. */
  lemma UpdateAgrees(
    m: seq<AddrEnt>, ss: seq<byte>, n: nat, m': seq<AddrEnt>, ix': set<int>,
    c: Code, short: u16, lock: bool, ret: Ret, ref: nat, trace: seq<Event>)
    requires Sound(m, ss, n, -1) && UniqueIeee(m) && Agrees(m, ListedSet(ss, n), trace) && |m'| == TABLE_SIZE
    requires Updated(m, ss, n, m', ix', c, short, lock, ret, ref)
    ensures Agrees(m', ix', trace) <==> UpdateQuiet(m, ss, n, c, short)
  {
    match PlanFor(m, ss, n, c, short) {
      case Take(_) => UpdateTakes(m, ss, n, m', ix', c, short, lock, ret, ref, trace);
      case Replace(_, _) => UpdateReplaces(m, ss, n, m', ix', c, short, lock, ret, ref, trace);
      case NewEntry =>
        SoundProper(m, ss, n);
        FindListed(m, ss, n, short);
        LookupAgrees(m, ListedSet(ss, n), m', ix', trace, None, Some(c), short, true, lock, ret, ref);
      case Conflict =>
    }
  }

  // ---------------------------------------------------------------- the filter

  class Detector {
    const t: AddressTable
    var alarmRunning: bool
    /** Pending alarms of `zb_aps_check_timer_cb`. */
    var alarms: nat
    ghost var trace: seq<Event>

    ghost predicate Clocked()
      reads this, t.addrMap
    {
      && alarms == (if alarmRunning then 1 else 0)
      && (!alarmRunning ==> forall r :: 0 <= r < t.addrMap.Length ==> t.addrMap[r].dupClock == 0)
    }

    ghost predicate Valid()
      reads this, t, t.addrMap, t.shortSorted
    {
      t.Good() && Clocked() && Agrees(t.addrMap[..], t.Index(), trace)
    }

    constructor ()
      ensures Valid() && trace == [] && fresh(t) && fresh(t.addrMap) && fresh(t.shortSorted)
      ensures t.Index() == {} && forall r :: 0 <= r < TABLE_SIZE ==> !t.addrMap[r].used
    {
      t := new AddressTable();
      alarmRunning, alarms, trace := false, 0, [];
    }

    /** Whether a packet from `src` can be recorded: the source has a short address, and an entry or
        room for one. */
    ghost predicate Recordable(src: u16)
      requires t.Good()
      reads this, t, t.addrMap, t.shortSorted
    {
      src != UNKNOWN_SHORT && (t.Lookup(src).Some? || !Full(t.addrMap[..]))
    }

    /** `aps_check_dups`: a packet is a duplicate exactly if the history says so; it becomes part of
        the history exactly if it can be recorded. */
    method CheckDups(src: u16, counter: byte) returns (isDup: bool, ghost ref: nat)
      requires Valid()
      modifies this, t, t.addrMap, t.shortSorted
      ensures Valid()
      ensures isDup <==> IsDuplicate(old(trace), src, counter)
      ensures trace == if old(Recordable(src)) then old(trace) + [Packet(src, counter)] else old(trace)
      ensures old(t.Lookup(src)).Some? || !Full(old(t.addrMap[..])) ==>
                ref < TABLE_SIZE && Stamped(old(t.addrMap[..]), t.addrMap[..], src, counter, ref)
                && (if old(t.Lookup(src)).Some? then ref == old(t.Lookup(src)).value
                    else !old(t.addrMap[..])[ref].used && forall r :: 0 <= r < ref ==> old(t.addrMap[..])[r].used)
      ensures old(t.Lookup(src)).None? && Full(old(t.addrMap[..])) ==> t.addrMap[..] == old(t.addrMap[..])
      ensures old(Recordable(src)) ==> t.Index() == old(t.Index()) + {ref}
    {
      ghost var m, ss, n := t.addrMap[..], t.shortSorted[..], t.nSorted;
      Judged(m, ss, n, trace, src, counter);
      var ok, at;
      ok, isDup, at := Observe(src, counter);
      ref := at;
      if ok {
        StampedAgrees(m, ss, n, t.addrMap[..], trace, src, counter, at);
        if !alarmRunning {
          alarmRunning := true;
          alarms := alarms + 1;
        }
        if src != UNKNOWN_SHORT { trace := trace + [Packet(src, counter)]; }
      }
    }

    /** What `aps_check_dups` does to the table, whether or not it agrees with any history: the entry
        found, or the first unused one, judges the packet and is stamped with it. */
    method Observe(src: u16, counter: byte) returns (ok: bool, isDup: bool, ref: nat)
      requires t.Good()
      modifies t, t.addrMap, t.shortSorted
      ensures t.Good() && (ok <==> old(t.Lookup(src)).Some? || !Full(old(t.addrMap[..])))
      ensures !ok ==> !isDup && t.addrMap[..] == old(t.addrMap[..]) && t.Index() == old(t.Index())
      ensures ok ==>
                && ref < TABLE_SIZE && Stamped(old(t.addrMap[..]), t.addrMap[..], src, counter, ref)
                && (if old(t.Lookup(src)).Some? then ref == old(t.Lookup(src)).value
                    else !old(t.addrMap[..])[ref].used && forall r :: 0 <= r < ref ==> old(t.addrMap[..])[r].used)
                && (isDup <==> Judges(old(t.addrMap[..])[ref], counter))
                && t.Index() == if src == UNKNOWN_SHORT then old(t.Index()) else old(t.Index()) + {ref}
      ensures isDup <==> Verdict(old(t.addrMap[..]), old(t.Lookup(src)), counter)
    {
      ghost var m, ss, n := t.addrMap[..], t.shortSorted[..], t.nSorted;
      NoUnknownFound(m, ss, n);
      var ret;
      ret, ref := ByShort(t, src, true, false);
      ok, isDup := ret == RetOk, false;
      if ok {
        isDup := Stamp(ref, counter);
        assert forall r :: 0 <= r < TABLE_SIZE && r != ref ==> SameButClock(m[r], t.addrMap[..][r]);
        VerdictIs(m, IndexFind(m, ss, n, src), ref, counter);
      }
    }

    /** The test and the update of the source's entry. */
    method Stamp(ref: nat, counter: byte) returns (isDup: bool)
      requires t.Good() && ref < TABLE_SIZE
      modifies t.addrMap
      ensures t.Good()
      ensures isDup <==> Judges(old(t.addrMap[ref]), counter)
      ensures t.addrMap[..] == old(t.addrMap[..])[ref := old(t.addrMap[ref]).(dupCounter := counter, dupClock := DUP_CLOCK_START)]
    {
      isDup := t.addrMap[ref].dupClock != 0 && t.addrMap[ref].dupCounter == counter;
      t.Touch(ref, t.addrMap[ref].(dupCounter := counter, dupClock := DUP_CLOCK_START));
    }

    /** The scan of `zb_aps_check_timer_cb`. */
    method AgeAll() returns (running: bool)
      requires t.Good()
      modifies t.addrMap
      ensures AllAged(old(t.addrMap[..]), t.addrMap[..], TABLE_SIZE)
      ensures running <==> exists r :: 0 <= r < TABLE_SIZE && t.addrMap[r].used && t.addrMap[r].dupClock != 0
    {
      ghost var m := t.addrMap[..];
      running := false;
      var i, n := 0, 0;
      while n < t.nElements
        invariant i <= TABLE_SIZE && n == Used(m, i) && t.nElements == Used(m, TABLE_SIZE)
        invariant AllAged(m, t.addrMap[..], i)
        invariant running <==> exists r :: 0 <= r < i && t.addrMap[r].used && t.addrMap[r].dupClock != 0
        decreases TABLE_SIZE - i
      {
        if t.addrMap[i].used {
          n := n + 1;
          if t.addrMap[i].dupClock != 0 {
            t.addrMap[i] := t.addrMap[i].(dupClock := t.addrMap[i].dupClock - 1);
            running := running || t.addrMap[i].dupClock != 0;
          }
        }
        i := i + 1;
      }
      UsedGrows(m, i, TABLE_SIZE);
    }

    /** `zb_aps_check_timer_cb`, run for the pending alarm: every running clock ages by one tick, and
        the alarm is set again exactly if one is still running. The scan stops inside the table
        because the element count is the number of used entries. */
    method CheckTimerCb()
      requires Valid() && alarms > 0
      modifies this, t.addrMap
      ensures Valid() && trace == old(trace) + [Tick]
      ensures alarmRunning <==> exists r :: 0 <= r < TABLE_SIZE && t.addrMap[r].used && t.addrMap[r].dupClock != 0
    {
      ghost var m, ss, n := t.addrMap[..], t.shortSorted[..], t.nSorted;
      SoundProper(m, ss, n);
      alarms := alarms - 1;
      alarmRunning := AgeAll();
      TickAgrees(m, ListedSet(ss, n), t.addrMap[..], trace);
      AgedTable(m, t.addrMap[..], ss, n);
      trace := trace + [Tick];
      if alarmRunning {
        alarms := alarms + 1;
      }
    }

    // -------------------------------------------------------------- what other components do

    /** Address lookups of other components, which may create entries, between packets and ticks. */
    method LookupShort(short: u16, create: bool, lock: bool) returns (ret: Ret, ref: nat)
      requires Valid()
      modifies t, t.addrMap, t.shortSorted
      ensures Valid()
    {
      ghost var m, ss, n := t.addrMap[..], t.shortSorted[..], t.nSorted;
      SoundProper(m, ss, n);
      FindListed(m, ss, n, short);
      ret, ref := ByShort(t, short, create, lock);
      LookupAgrees(m, ListedSet(ss, n), t.addrMap[..], t.Index(), trace,
                   IndexFind(m, ss, n, short), None, short, create, lock, ret, ref);
      LookupClocked(m, t.addrMap[..], ListedSet(ss, n), t.Index(), IndexFind(m, ss, n, short), None, short, create, lock, ret, ref);
    }

    method LookupIeee(c: Code, create: bool, lock: bool) returns (ret: Ret, ref: nat)
      requires Valid()
      modifies t, t.addrMap, t.shortSorted
      ensures Valid()
    {
      ghost var m, ss, n := t.addrMap[..], t.shortSorted[..], t.nSorted;
      SoundProper(m, ss, n);
      ret, ref := ByIeee(t, c, create, lock);
      LookupAgrees(m, ListedSet(ss, n), t.addrMap[..], t.Index(), trace,
                   IeeeLookup(m, c), Some(c), UNKNOWN_SHORT, create, lock, ret, ref);
      LookupClocked(m, t.addrMap[..], ListedSet(ss, n), t.Index(), IeeeLookup(m, c), Some(c), UNKNOWN_SHORT, create, lock, ret, ref);
    }

    /** `zb_address_delete` between packets and ticks: the filter stays right exactly if the entry was
        in use and neither it nor an entry its removal drops from the index has a running clock. */
    method DeleteEntry(ref: nat)
      requires Valid() && ref < TABLE_SIZE
      modifies t, t.addrMap, t.shortSorted
      ensures Valid() <==> old(t.addrMap[ref].used) && old(t.addrMap[ref].dupClock) == 0
                           && Quiet(old(t.addrMap[..]), LostSet(old(t.shortSorted[..]), old(t.nSorted), ref))
    {
      ghost var m, ss, n := t.addrMap[..], t.shortSorted[..], t.nSorted;
      DeletedState(m, ss, n, ref, trace);
      t.Delete(ref);
      assert Clocked() by {
        assert forall r :: 0 <= r < TABLE_SIZE ==> t.addrMap[..][r].dupClock == m[r].dupClock;
      }
    }

    /** `zb_address_update` between packets and ticks: the filter stays right exactly if the update does
        not spoil the table and leaves the running clocks alone. */
    method UpdateAddress(c: Code, short: u16, lock: bool) returns (ret: Ret, ref: nat)
      requires Valid()
      modifies t, t.addrMap, t.shortSorted
      ensures Valid() <==> !Spoils(old(t.addrMap[..]), c, short)
                           && UpdateQuiet(old(t.addrMap[..]), old(t.shortSorted[..]), old(t.nSorted), c, short)
    {
      ghost var m, ss, n := t.addrMap[..], t.shortSorted[..], t.nSorted;
      ret, ref := Update(t, c, short, lock);
      UpdateAgrees(m, ss, n, t.addrMap[..], t.Index(), c, short, lock, ret, ref, trace);
      UpdateClocked(m, ss, n, t.addrMap[..], t.Index(), c, short, lock, ret, ref);
      assert Clocked() by {
        assert forall r :: 0 <= r < TABLE_SIZE ==> t.addrMap[..][r].dupClock == m[r].dupClock;
      }
    }

    /** Packets whose source is 0xffff are never recorded nor reported, and each fills another entry as long
        as there is room; so enough of them leave no room for any new source. */
    method Flood(counters: seq<byte>)
      requires Valid()
      modifies this, t, t.addrMap, t.shortSorted
      ensures Valid() && trace == old(trace)
      ensures t.nElements == if old(t.nElements) + |counters| <= TABLE_SIZE then old(t.nElements) + |counters| else TABLE_SIZE
      ensures |counters| >= TABLE_SIZE ==> forall src :: t.Lookup(src).None? ==> !Recordable(src)
    {
      for i := 0 to |counters|
        invariant Valid() && trace == old(trace)
        invariant t.nElements == if old(t.nElements) + i <= TABLE_SIZE then old(t.nElements) + i else TABLE_SIZE
      {
        FloodOne(counters[i]);
      }
      UsedGrows(t.addrMap[..], 0, TABLE_SIZE);
      assert t.nElements == TABLE_SIZE ==> Full(t.addrMap[..]);
    }

    method FloodOne(counter: byte)
      requires Valid()
      modifies this, t, t.addrMap, t.shortSorted
      ensures Valid() && trace == old(trace)
      ensures t.nElements == if old(t.nElements) < TABLE_SIZE then old(t.nElements) + 1 else TABLE_SIZE
    {
      ghost var m, ss, n := t.addrMap[..], t.shortSorted[..], t.nSorted;
      NoUnknownFound(m, ss, n);
      UsedGrows(m, 0, TABLE_SIZE);
      FullIsAll(m);
      var isDup;
      ghost var ref;
      isDup, ref := CheckDups(UNKNOWN_SHORT, counter);
      if !Full(m) { OneMore(m, t.addrMap[..], ref); }
    }

    static lemma FullIsAll(m: seq<AddrEnt>)
      requires |m| == TABLE_SIZE
      ensures Full(m) <==> Used(m, TABLE_SIZE) == TABLE_SIZE
    {
      UsedGrows(m, 0, TABLE_SIZE);
      if Full(m) { AllUsed(m, TABLE_SIZE); }
    }

    static lemma {:induction false} AllUsed(m: seq<AddrEnt>, k: nat)
      requires k <= |m| && Full(m)
      ensures Used(m, k) == k
    {
      if k > 0 { AllUsed(m, k - 1); }
    }

    static lemma OneMore(m: seq<AddrEnt>, m': seq<AddrEnt>, ref: nat)
      requires |m| == TABLE_SIZE && ref < TABLE_SIZE && OthersSame(m, m', ref) && !m[ref].used && m'[ref].used
      ensures Used(m', TABLE_SIZE) == Used(m, TABLE_SIZE) + 1
    {
      var m1 := m[ref := m'[ref]];
      UsedUpdate(m, ref, m'[ref], TABLE_SIZE);
      UsedFrame(m1, m', TABLE_SIZE);
    }

    // -------------------------------------------------------------- failing inputs

    /** Source 1 sends a packet and its entry is deleted; source 2, whose entry the next packet makes, or
        another component `made` before it, sends its first packet ever: a duplicate. */
    method ReusedEntry(counter: byte, made: bool) returns (isDup: bool)
      requires Valid() && trace == [] && t.Index() == {} && forall r :: 0 <= r < TABLE_SIZE ==> !t.addrMap[r].used
      modifies this, t, t.addrMap, t.shortSorted
      ensures isDup && LastSeen(trace, 2).None?
    {
      var _, ref := OnlyPacket(counter);
      t.Delete(0);
      isDup := FirstOfTwo(counter, made);
    }

    method FirstOfTwo(counter: byte, made: bool) returns (isDup: bool)
      requires t.Good() && forall r :: 0 <= r < TABLE_SIZE ==> !t.addrMap[r].used
      requires Judges(t.addrMap[0], counter)
      modifies t, t.addrMap, t.shortSorted
      ensures isDup
    {
      ghost var m := t.addrMap[..];
      assert !m[0].used && !Full(m);
      NotFound(2);
      if made {
        var ret, at := ByShort(t, 2, true, false);
        assert at == 0;
        assert Judges(t.addrMap[..][0], counter);
        assert t.Lookup(2) == Some(0) by { FindIs(t.addrMap[..], t.shortSorted[..], t.nSorted, 2, 0); }
      }
      var ok, at;
      ok, isDup, at := Observe(2, counter);
    }

    /** The packet of source 1 in an empty table. */
    method OnlyPacket(counter: byte) returns (isDup: bool, ghost ref: nat)
      requires Valid() && trace == [] && t.Index() == {} && forall r :: 0 <= r < TABLE_SIZE ==> !t.addrMap[r].used
      modifies this, t, t.addrMap, t.shortSorted
      ensures Valid() && LastSeen(trace, 2).None? && ref == 0
      ensures t.addrMap[0].used && t.addrMap[0].dupClock != 0 && t.addrMap[0].dupCounter == counter
      ensures forall r :: 0 < r < TABLE_SIZE ==> !t.addrMap[r].used
    {
      ghost var m := t.addrMap[..];
      assert !m[0].used && !Full(m);
      NotFound(1);
      AfterPacket([], 1, counter, 2);
      isDup, ref := CheckDups(1, counter);
      assert forall r :: 0 <= r < TABLE_SIZE && r != ref ==> SameButClock(m[r], t.addrMap[..][r]);
    }

    /** In a table without used entries no address is found. */
    lemma NotFound(src: u16)
      requires t.Good() && forall r :: 0 <= r < TABLE_SIZE ==> !t.addrMap[r].used
      ensures t.Lookup(src).None?
    {
      if t.Lookup(src).Some? {
        FoundIsUsed(t.addrMap[..], t.shortSorted[..], t.nSorted, src);
        assert false;
      }
    }

    /** An address becomes known with short address 1; source 1 sends a packet; the address moves to short
        address 2; source 2 sends its first packet ever: a duplicate. No deletion is involved. */
    method MovedEntry(c: Code, counter: byte) returns (isDup: bool)
      requires Valid() && trace == [] && t.Index() == {} && forall r :: 0 <= r < TABLE_SIZE ==> !t.addrMap[r].used
      modifies this, t, t.addrMap, t.shortSorted
      ensures isDup && LastSeen(trace, 2).None?
    {
      var ref := KnownSource(c, counter);
      ghost var m, ss, n := t.addrMap[..], t.shortSorted[..], t.nSorted;
      var ret, at := Update(t, c, 2, false);
      assert t.Lookup(2) == Some(ref) by { FindIs(t.addrMap[..], t.shortSorted[..], t.nSorted, 2, ref); }
      var ok;
      ok, isDup, at := Observe(2, counter);
    }

    /** The address and the packet of source 1. */
    method KnownSource(c: Code, counter: byte) returns (ref: nat)
      requires Valid() && trace == [] && t.Index() == {} && forall r :: 0 <= r < TABLE_SIZE ==> !t.addrMap[r].used
      modifies this, t, t.addrMap, t.shortSorted
      ensures t.Good() && LastSeen(trace, 2).None? && ref < TABLE_SIZE
      ensures t.addrMap[ref].addr == 1 && Judges(t.addrMap[ref], counter)
      ensures t.Lookup(2).None? && IeeeLookup(t.addrMap[..], c) == Some(ref)
    {
      ghost var m := t.addrMap[..];
      ref := FirstEntry(t, c, 1);
      ghost var m' := t.addrMap[..];
      assert forall r :: 0 <= r < TABLE_SIZE && r != ref ==> SameButClock(m[r], m'[r]);
      assert forall r :: 0 <= r < TABLE_SIZE ==> m'[r].dupClock == m[r].dupClock == 0;
      PacketOfKnown(ref, c, counter);
    }

    method PacketOfKnown(ref: nat, c: Code, counter: byte)
      requires Valid() && trace == [] && ref < TABLE_SIZE && t.Index() == {ref} && t.addrMap[ref].addr == 1
      requires IeeeLookup(t.addrMap[..], c) == Some(ref) && forall r :: 0 <= r < TABLE_SIZE && r != ref ==> !t.addrMap[r].used
      modifies this, t, t.addrMap, t.shortSorted
      ensures t.Good() && LastSeen(trace, 2).None? && t.addrMap[ref].addr == 1 && Judges(t.addrMap[ref], counter)
      ensures t.Lookup(2).None? && IeeeLookup(t.addrMap[..], c) == Some(ref)
    {
      ghost var m := t.addrMap[..];
      OnlyListed(ref, 1);
      AfterPacket([], 1, counter, 2);
      assert m[ref].used && m[ref].ieee == c;
      var _, at := CheckDups(1, counter);
      ghost var m' := t.addrMap[..];
      assert forall r :: 0 <= r < TABLE_SIZE && r != ref ==> SameButClock(m[r], m'[r]);
      StillFound(m', c, ref);
      assert t.Index() == {ref};
      OnlyListed(ref, 2);
    }

    static lemma StillFound(m: seq<AddrEnt>, c: Code, ref: nat)
      requires |m| == TABLE_SIZE && ref < TABLE_SIZE && m[ref].used && m[ref].ieee == c
      requires forall r :: 0 <= r < TABLE_SIZE && r != ref ==> !m[r].used
      ensures IeeeLookup(m, c) == Some(ref)
    {
      IeeeLookupDecides(m, c);
    }

    lemma OnlyListed(ref: nat, src: u16)
      requires t.Good() && t.Index() == {ref} && ref < TABLE_SIZE && t.addrMap[ref].addr == 1
      ensures t.Lookup(src) == if src == 1 then Some(ref) else None
    {
      FindListed(t.addrMap[..], t.shortSorted[..], t.nSorted, src);
    }
  }

  /** The test of `aps_check_dups` on an entry. */
  predicate Judges(e: AddrEnt, counter: byte) { e.dupClock != 0 && e.dupCounter == counter }

  /** In agreement with the history, the entry found judges rightly, and a source without entry is not
      a recent one. */
  lemma Judged(m: seq<AddrEnt>, ss: seq<byte>, n: nat, trace: seq<Event>, src: u16, counter: byte)
    requires Sound(m, ss, n, -1) && Agrees(m, ListedSet(ss, n), trace)
    ensures var s := IndexFind(m, ss, n, src);
            IsDuplicate(trace, src, counter) <==> s.Some? && Judges(m[s.value], counter)
  {
    var s := IndexFind(m, ss, n, src);
    FindListed(m, ss, n, src);
    if s.Some? { assert s.value in ListedSet(ss, n) && Remembers(m[s.value], trace); }
  }

  lemma StampedAgrees(
    m: seq<AddrEnt>, ss: seq<byte>, n: nat, m': seq<AddrEnt>, trace: seq<Event>, src: u16, counter: byte, ref: nat)
    requires Sound(m, ss, n, -1) && Agrees(m, ListedSet(ss, n), trace) && ref < |m| && Stamped(m, m', src, counter, ref)
    requires if IndexFind(m, ss, n, src).Some? then ref == IndexFind(m, ss, n, src).value else !m[ref].used
    ensures if src == UNKNOWN_SHORT then Agrees(m', ListedSet(ss, n), trace)
            else Agrees(m', ListedSet(ss, n) + {ref}, trace + [Packet(src, counter)])
  {
    FindListed(m, ss, n, src);
    SoundProper(m, ss, n);
    NoUnknownFound(m, ss, n);
    PacketAgrees(m, ListedSet(ss, n), m', trace, src, counter, ref);
  }

  /** Lookups and updates leave all clocks as they are. */
  lemma LookupClocked(
    m: seq<AddrEnt>, m': seq<AddrEnt>, ix: set<int>, ix': set<int>,
    s: Option<nat>, code: Option<Code>, short: u16, create: bool, lock: bool, ret: Ret, ref: nat)
    requires |m| == |m'| == TABLE_SIZE && (s.Some? ==> s.value < TABLE_SIZE)
    requires LookedUp(m, ix, m', ix', s, code, short, create, lock, ret, ref)
    ensures forall r :: 0 <= r < TABLE_SIZE ==> m'[r].dupClock == m[r].dupClock
  {
    if s.None? && create && !Full(m) {
      assert forall r :: 0 <= r < TABLE_SIZE && r != ref ==> SameButClock(m[r], m'[r]);
    }
  }

  lemma UpdateClocked(
    m: seq<AddrEnt>, ss: seq<byte>, n: nat, m': seq<AddrEnt>, ix': set<int>, c: Code, short: u16, lock: bool, ret: Ret, ref: nat)
    requires |m| == |m'| == TABLE_SIZE && n < |ss| && Updated(m, ss, n, m', ix', c, short, lock, ret, ref)
    ensures forall r :: 0 <= r < TABLE_SIZE ==> m'[r].dupClock == m[r].dupClock
  {
    if PlanFor(m, ss, n, c, short).NewEntry? {
      LookupClocked(m, m', ListedSet(ss, n), ix', None, Some(c), short, true, lock, ret, ref);
    }
  }

  /** Ageing touches nothing the indexes depend on. */
  lemma {:induction false} AgedUsed(m: seq<AddrEnt>, m': seq<AddrEnt>, k: nat)
    requires AllAged(m, m', |m|) && k <= |m|
    ensures Used(m', k) == Used(m, k)
  {
    if k > 0 { AgedUsed(m, m', k - 1); }
  }

  lemma AgedTable(m: seq<AddrEnt>, m': seq<AddrEnt>, ss: seq<byte>, n: nat)
    requires AllAged(m, m', |m|) && Sound(m, ss, n, -1) && UniqueIeee(m)
    ensures Sound(m', ss, n, -1) && UniqueIeee(m') && Used(m', TABLE_SIZE) == Used(m, TABLE_SIZE)
  {
    AgedUsed(m, m', TABLE_SIZE);
    assert forall r :: 0 <= r < |m| ==>
             m'[r].used == m[r].used && m'[r].addr == m[r].addr && m'[r].ieee == m[r].ieee && Known(m'[r]) == Known(m[r]);
  }

  // ---------------------------------------------------------------- what goes wrong otherwise

  /** The first unused entry from `i` on, or the table length. */
  function FirstUnused(m: seq<AddrEnt>, i: nat): (r: nat)
    requires i <= |m|
    ensures i <= r <= |m| && (r < |m| ==> !m[r].used) && forall k :: i <= k < r ==> m[k].used
    decreases |m| - i
  {
    if i == |m| || !m[i].used then i else FirstUnused(m, i + 1)
  }

  /** What the filter says about the next packet of a source whose entry is `s`: without an entry, the
      first unused one decides. */
  predicate Verdict(m: seq<AddrEnt>, s: Option<nat>, counter: byte)
    requires s.Some? ==> s.value < |m|
  {
    var r := if s.Some? then s.value else FirstUnused(m, 0);
    r < |m| && Judges(m[r], counter)
  }

  lemma VerdictIs(m: seq<AddrEnt>, s: Option<nat>, ref: nat, counter: byte)
    requires ref < |m| && (s.Some? ==> s.value == ref) && (s.None? ==> !m[ref].used && forall r :: 0 <= r < ref ==> m[r].used)
    ensures Verdict(m, s, counter) <==> Judges(m[ref], counter)
  {
  }

  /** Table and history in agreement: every next packet is judged rightly. */
  lemma AgreementJudges(m: seq<AddrEnt>, ss: seq<byte>, n: nat, trace: seq<Event>, src: u16, counter: byte)
    requires Sound(m, ss, n, -1) && Agrees(m, ListedSet(ss, n), trace)
    ensures Verdict(m, IndexFind(m, ss, n, src), counter) <==> IsDuplicate(trace, src, counter)
  {
    Judged(m, ss, n, trace, src, counter);
  }

  lemma StaysUnlisted(m: seq<AddrEnt>, ss: seq<byte>, n: nat, g: nat, src: u16)
    requires Sound(m, ss, n, -1) && g < TABLE_SIZE
    requires IndexFind(m, ss, n, src) == None || IndexFind(m, ss, n, src) == Some(g)
             || (IndexFind(m, ss, n, src).Some? && IndexFind(m, ss, n, src).value in LostSet(ss, n, g))
    ensures IndexFind(m[g := m[g].(used := false)], DelIndex(ss, n, g).0, DelIndex(ss, n, g).1, src) == None
  {
    var m1 := m[g := m[g].(used := false)];
    var (ss1, n1) := DelIndex(ss, n, g);
    var f := IndexFind(m1, ss1, n1, src);
    if f.Some? {
      DelIndexLists(m, ss, n, g, f.value);
      assert m[f.value].addr == src && Listed(ss, n, f.value);
      FindIs(m, ss, n, src, f.value);
      assert false;
    }
  }

  /** When a listed entry with a running clock is deleted, the very next packet can be misjudged, in every
      state: if its place is now the first unused one, any source without an entry is taken for the
      sender of its last packet; else the sender's own repetition is not recognised. */
  lemma DeletionMisjudges(m: seq<AddrEnt>, ss: seq<byte>, n: nat, g: nat, other: u16, trace: seq<Event>)
    requires Sound(m, ss, n, -1) && Agrees(m, ListedSet(ss, n), trace) && IndexFind(m, ss, n, other).None?
    requires g < TABLE_SIZE && Listed(ss, n, g) && m[g].dupClock != 0
    ensures var m1, k := m[g := m[g].(used := false)], m[g].dupCounter;
            var src := if FirstUnused(m1, 0) == g then other else m[g].addr;
            Verdict(m1, IndexFind(m1, DelIndex(ss, n, g).0, DelIndex(ss, n, g).1, src), k) <==> !IsDuplicate(trace, src, k)
  {
    var m1, k := m[g := m[g].(used := false)], m[g].dupCounter;
    FindIs(m, ss, n, m[g].addr, g);
    Judged(m, ss, n, trace, m[g].addr, k);
    Judged(m, ss, n, trace, other, k);
    StaysUnlisted(m, ss, n, g, m[g].addr);
    StaysUnlisted(m, ss, n, g, other);
    FirstAfter(m, g);
  }

  lemma FirstAfter(m: seq<AddrEnt>, g: nat)
    requires g < |m|
    ensures var r := FirstUnused(m[g := m[g].(used := false)], 0);
            r <= g && (r != g ==> !m[r].used)
  {
    assert !m[g := m[g].(used := false)][g].used;
  }

  /** When a deletion drops another entry from the index and that one has a running clock, the repetition
      of its sender's packet is not recognised. */
  lemma LossMisjudges(m: seq<AddrEnt>, ss: seq<byte>, n: nat, g: nat, q: nat, trace: seq<Event>)
    requires Sound(m, ss, n, -1) && Agrees(m, ListedSet(ss, n), trace) && g < TABLE_SIZE && m[g].dupClock == 0
    requires q < TABLE_SIZE && q in LostSet(ss, n, g) && m[q].dupClock != 0
    ensures var m1, k := m[g := m[g].(used := false)], m[q].dupCounter;
            && IsDuplicate(trace, m[q].addr, k)
            && !Verdict(m1, IndexFind(m1, DelIndex(ss, n, g).0, DelIndex(ss, n, g).1, m[q].addr), k)
  {
    LostListed(m, ss, n, g);
    FindIs(m, ss, n, m[q].addr, q);
    Judged(m, ss, n, trace, m[q].addr, m[q].dupCounter);
    StaysUnlisted(m, ss, n, g, m[q].addr);
    var m1 := m[g := m[g].(used := false)];
    assert FirstUnused(m1, 0) < |m1| ==> m1[FirstUnused(m1, 0)].dupClock == 0;
  }

  /** When an update gives a running entry the short address of a source without one, that source is taken
      for the sender of the entry's last packet. */
  lemma MoveMisjudges(
    m: seq<AddrEnt>, ss: seq<byte>, n: nat, m': seq<AddrEnt>, ss': seq<byte>, n': nat,
    c: Code, short: u16, lock: bool, ret: Ret, ref: nat, trace: seq<Event>)
    requires Sound(m, ss, n, -1) && UniqueIeee(m) && Agrees(m, ListedSet(ss, n), trace) && Sound(m', ss', n', -1)
    requires Updated(m, ss, n, m', ListedSet(ss', n'), c, short, lock, ret, ref)
    requires PlanFor(m, ss, n, c, short) == Take(ref) && m[ref].addr != short && m[ref].dupClock != 0
    ensures Verdict(m', IndexFind(m', ss', n', short), m[ref].dupCounter) && !IsDuplicate(trace, short, m[ref].dupCounter)
  {
    var k := m[ref].dupCounter;
    TakeMoved(m, ss, n, m', ListedSet(ss', n'), c, short, lock, ret, ref);
    assert Judges(m'[ref], k);
    assert IndexFind(m', ss', n', short) == Some(ref) by { FindIs(m', ss', n', short, ref); }
    assert !IsDuplicate(trace, short, k) by { Judged(m, ss, n, trace, short, k); }
  }

  /** An update that changes the short address of the entry it takes lists it under the new one, which no
      listed entry had. */
  lemma TakeMoved(
    m: seq<AddrEnt>, ss: seq<byte>, n: nat, m': seq<AddrEnt>, ix': set<int>, c: Code, short: u16, lock: bool, ret: Ret, ref: nat)
    requires |m| == |m'| == TABLE_SIZE && n < |ss| && Updated(m, ss, n, m', ix', c, short, lock, ret, ref)
    requires PlanFor(m, ss, n, c, short) == Take(ref) && m[ref].addr != short
    ensures ref in ix' && m'[ref].addr == short && IndexFind(m, ss, n, short) == None
    ensures m'[ref].dupClock == m[ref].dupClock && m'[ref].dupCounter == m[ref].dupCounter
  {
  }
}
