/** The address translation table (common/zb_address.c). */
module AddressTables {
  import opened Types
  import opened AddressIndex

  /** `ZB_4INT_HASH_FUNC` of four device-id octets, in 32-bit arithmetic, modulo the table size. */
  function Hash(c: Code): (h: nat)
    ensures h < TABLE_SIZE
  {
    ((((5381 * 33 + c.id0) * 33 + c.id2) * 33 + c.id3) * 33 + c.id4) % 0x8000_0000 % TABLE_SIZE
  }

  // ---------------------------------------------------------------- counting used entries

  /** Used entries among the first `k`. */
  function Used(m: seq<AddrEnt>, k: nat): (u: nat)
    requires k <= |m|
    ensures u <= k
  {
    if k == 0 then 0 else Used(m, k - 1) + if m[k - 1].used then 1 else 0
  }

  lemma {:induction false} UsedGrows(m: seq<AddrEnt>, a: nat, b: nat)
    requires a <= b <= |m|
    ensures Used(m, a) <= Used(m, b) <= Used(m, a) + b - a
    ensures Used(m, a) == Used(m, b) ==> forall r :: a <= r < b ==> !m[r].used
    ensures Used(m, b) - Used(m, a) == b - a ==> forall r :: a <= r < b ==> m[r].used
    decreases b
  {
    if a < b { UsedGrows(m, a, b - 1); }
  }

  /** Changing one entry changes the count by the change of its flag. */
  lemma {:induction false} UsedUpdate(m: seq<AddrEnt>, r: nat, e: AddrEnt, k: nat)
    requires r < |m| && k <= |m|
    ensures Used(m[r := e], k) + (if r < k && m[r].used then 1 else 0)
            == Used(m, k) + (if r < k && e.used then 1 else 0)
  {
    if k > 0 { UsedUpdate(m, r, e, k - 1); }
  }

  /** The position `j` steps after `h`, cyclically. */
  function After(h: nat, j: nat): (r: nat)
    requires h < TABLE_SIZE && j <= TABLE_SIZE
    ensures r < TABLE_SIZE
  {
    if h + j < TABLE_SIZE then h + j else h + j - TABLE_SIZE
  }

  lemma AfterNext(h: nat, j: nat)
    requires h < TABLE_SIZE && j < TABLE_SIZE
    ensures After(h, j + 1) == (After(h, j) + 1) % TABLE_SIZE
  {
  }

  /** Every table position is reached by stepping cyclically from any other. */
  lemma CycleReaches(h: nat, r: nat) returns (j: nat)
    requires h < TABLE_SIZE && r < TABLE_SIZE
    ensures j < TABLE_SIZE && After(h, j) == r
  {
    j := if r >= h then r - h else r + TABLE_SIZE - h;
  }

  /** The cyclic order is the order of the step counts. */
  lemma CycleOrder(h: nat, n: nat, j: nat)
    requires h < TABLE_SIZE && n < TABLE_SIZE && j < TABLE_SIZE
    ensures NotEarlier(h, After(h, n), After(h, j)) <==> n <= j
    ensures After(h, j) == (h + j) % 101
  {
  }

  /** An entry the clock hand may clear. */
  predicate Idle(e: AddrEnt) { e.used && e.lockCnt == 0 }

  /** `r` is not before `t` in the cyclic order that starts at `hand`. */
  predicate NotEarlier(hand: nat, t: nat, r: nat) {
    if t >= hand then r < hand || r >= t else t <= r < hand
  }

  /** `r` is where the clock hand stops next: the first used entry without a lock, in cyclic order. */
  ghost predicate HandOn(m: seq<AddrEnt>, hand: nat, r: nat)
    requires r < |m|
  {
    m[r].used && m[r].lockCnt == 0
    && forall q :: 0 <= q < |m| && m[q].used && m[q].lockCnt == 0 ==> NotEarlier(hand, r, q)
  }

  /** But for entry `ref`: the clock bit under the hand is cleared and no other has changed. */
  ghost predicate HandMoved(m: seq<AddrEnt>, hand: nat, m': seq<AddrEnt>, ref: int) {
    |m| == |m'| && forall r :: 0 <= r < |m| && r != ref ==> m'[r].clock == (m[r].clock && !HandOn(m, hand, r))
  }

  ghost predicate UniqueIeee(m: seq<AddrEnt>) {
    forall r, q {:trigger m[r].ieee, m[q].ieee} ::
      0 <= r < q < |m| && m[r].used && m[q].used && m[r].ieee == m[q].ieee ==> m[r].ieee == ZERO_CODE
  }

  /** Two entries that differ at most in the clock bit. */
  predicate SameButClock(e: AddrEnt, f: AddrEnt) { e.(clock := f.clock) == f }

  ghost predicate AllSameButClock(m: seq<AddrEnt>, m': seq<AddrEnt>) {
    |m| == |m'| && forall r :: 0 <= r < |m| ==> SameButClock(m[r], m'[r])
  }

  lemma {:induction false} UsedFrame(m: seq<AddrEnt>, m': seq<AddrEnt>, k: nat)
    requires AllSameButClock(m, m') && k <= |m|
    ensures Used(m', k) == Used(m, k)
  {
    if k > 0 {
      UsedFrame(m, m', k - 1);
      assert SameButClock(m[k - 1], m'[k - 1]);
    }
  }

  /** Nothing but the clock hand looks at clock bits. */
  lemma ClockFrame(m: seq<AddrEnt>, m': seq<AddrEnt>, ss: seq<byte>, n: nat, excl: int)
    requires AllSameButClock(m, m') && |m| == TABLE_SIZE
    ensures Sound(m, ss, n, excl) ==> Sound(m', ss, n, excl)
    ensures Complete(m, ss, n, excl) <==> Complete(m', ss, n, excl)
    ensures Used(m', TABLE_SIZE) == Used(m, TABLE_SIZE)
    ensures UniqueIeee(m) ==> UniqueIeee(m')
  {
    UsedFrame(m, m', TABLE_SIZE);
    assert forall r :: 0 <= r < |m| ==> SameButClock(m[r], m'[r]) && Known(m[r]) == Known(m'[r]);
  }

  /** An entry after `addr_add` filled it; lock count and duplicate data stay from its last use. */
  function Filled(e: AddrEnt, code: Option<Code>, short: u16): AddrEnt {
    e.(ieee := if code.Some? then code.value else ZERO_CODE, addr := short, used := true, clock := true)
  }

  /** Where the search for an unused entry starts. */
  function Home(code: Option<Code>): (h: nat)
    ensures h < TABLE_SIZE
  {
    if code.Some? then Hash(code.value) else 0
  }

  /** The lock count has four bits; the source stops when it would overflow. */
  const MAX_LOCKS: nat := 15

  function Locked(e: AddrEnt): AddrEnt { e.(lockCnt := e.lockCnt + 1, clock := true) }

  // ---------------------------------------------------------------- searches as functions

  /** The first known entry with the given short address, by a scan of the table. */
  function Scan(m: seq<AddrEnt>, short: u16, i: nat): (r: Option<nat>)
    requires i <= |m|
    ensures r.Some? ==> i <= r.value < |m| && Known(m[r.value]) && m[r.value].addr == short
    ensures r.None? ==> forall k :: i <= k < |m| ==> !(Known(m[k]) && m[k].addr == short)
    decreases |m| - i
  {
    if i == |m| then None
    else if Known(m[i]) && m[i].addr == short then Some(i)
    else Scan(m, short, i + 1)
  }

  /** With a complete index, the scan of the live part and the scan of the table agree. */
  lemma FindIsScan(m: seq<AddrEnt>, ss: seq<byte>, n: nat, short: u16)
    requires Sound(m, ss, n, -1) && Complete(m, ss, n, -1)
    ensures IndexFind(m, ss, n, short) == Scan(m, short, 0)
  {
    var s, f := Scan(m, short, 0), IndexFind(m, ss, n, short);
    if s.Some? {
      assert Listed(ss, n, s.value);
      FindIs(m, ss, n, short, s.value);
    } else if f.Some? {
      ListedKnown(m, ss, n, f.value);
    }
  }

  lemma ListedKnown(m: seq<AddrEnt>, ss: seq<byte>, n: nat, r: nat)
    requires Sound(m, ss, n, -1) && Listed(ss, n, r)
    ensures r < TABLE_SIZE && Known(m[r])
  {
    var k :| 0 <= k < n && ss[k] == r;
    assert Known(m[ss[k]]);
  }

  /** The first used entry with the given code, in probe order from `h`, from the j-th probe on. */
  function Probe(m: seq<AddrEnt>, c: Code, h: nat, j: nat): (r: Option<nat>)
    requires |m| == TABLE_SIZE && h < TABLE_SIZE && j <= TABLE_SIZE
    ensures r.Some? ==> r.value < TABLE_SIZE && m[r.value].used && m[r.value].ieee == c
    decreases TABLE_SIZE - j
  {
    if j == TABLE_SIZE then None
    else if m[After(h, j)].used && m[After(h, j)].ieee == c then Some(After(h, j))
    else Probe(m, c, h, j + 1)
  }

  /** What `ieee_search` finds. */
  function IeeeLookup(m: seq<AddrEnt>, c: Code): (r: Option<nat>)
    requires |m| == TABLE_SIZE
  {
    Probe(m, c, Hash(c), 0)
  }

  lemma {:induction false} ProbeMisses(m: seq<AddrEnt>, c: Code, h: nat, j: nat, k: nat)
    requires |m| == TABLE_SIZE && h < TABLE_SIZE && j <= k < TABLE_SIZE && Probe(m, c, h, j).None?
    ensures !(m[After(h, k)].used && m[After(h, k)].ieee == c)
    decreases k - j
  {
    if j < k { ProbeMisses(m, c, h, j + 1, k); }
  }

  /** The probe decides membership: it finds a used entry with the code exactly if there is one. */
  lemma IeeeLookupDecides(m: seq<AddrEnt>, c: Code)
    requires |m| == TABLE_SIZE
    ensures IeeeLookup(m, c).Some? <==> exists r :: 0 <= r < TABLE_SIZE && m[r].used && m[r].ieee == c
  {
    var h := Hash(c);
    if Probe(m, c, h, 0).None? {
      forall r | 0 <= r < TABLE_SIZE ensures !(m[r].used && m[r].ieee == c) {
        var j := CycleReaches(h, r);
        ProbeMisses(m, c, h, 0, j);
      }
    }
  }

  /** Filling an unused entry with a code no used entry has, or with none, keeps codes unique. */
  lemma OccupyUnique(m: seq<AddrEnt>, ref: nat, e: AddrEnt)
    requires UniqueIeee(m) && ref < |m|
    requires e.ieee == ZERO_CODE || forall r :: 0 <= r < |m| && r != ref && m[r].used ==> m[r].ieee != e.ieee
    ensures UniqueIeee(m[ref := e])
  {
  }

  class AddressTable {
    const addrMap: array<AddrEnt>
    const shortSorted: array<byte>
    var nElements: nat
    var nSorted: nat
    var clockI: nat

    ghost predicate Shape() {
      addrMap.Length == TABLE_SIZE && shortSorted.Length == TABLE_SIZE + 1
      && addrMap as object != shortSorted as object
    }

    /** What every operation keeps, whatever happens to the index's completeness. */
    ghost predicate Good()
      reads this, addrMap, shortSorted
    {
      && Shape()
      && Sound(addrMap[..], shortSorted[..], nSorted, -1)
      && nElements == Used(addrMap[..], TABLE_SIZE)
      && clockI <= TABLE_SIZE
      && UniqueIeee(addrMap[..])
    }

    ghost predicate IndexComplete()
      reads this, addrMap, shortSorted
    {
      Complete(addrMap[..], shortSorted[..], nSorted, -1)
    }

    /** The entries the index lists. */
    ghost function Index(): set<int>
      requires nSorted <= shortSorted.Length
      reads this, shortSorted
    {
      ListedSet(shortSorted[..], nSorted)
    }

    /** The listed entry with a short address. */
    ghost function Lookup(short: u16): Option<nat>
      requires nSorted <= shortSorted.Length
      reads this, addrMap, shortSorted
    {
      IndexFind(addrMap[..], shortSorted[..], nSorted, short)
    }

    constructor ()
      ensures Good() && IndexComplete() && Index() == {}
      ensures forall k :: 0 <= k <= TABLE_SIZE ==> shortSorted[..][k] == 0
      ensures forall r :: 0 <= r < TABLE_SIZE ==> !addrMap[r].used && addrMap[r].dupClock == 0 && addrMap[r].lockCnt == 0
      ensures fresh(addrMap) && fresh(shortSorted)
    {
      addrMap := new AddrEnt[TABLE_SIZE](_ => AddrEnt(ZERO_CODE, 0, false, 0, false, 0, 0));
      shortSorted := new byte[TABLE_SIZE + 1](_ => 0);
      nElements, nSorted, clockI := 0, 0, 0;
      new;
      assert forall r :: 0 <= r < TABLE_SIZE ==> !addrMap[..][r].used;
      NoneUsed(addrMap[..], TABLE_SIZE);
    }

    static lemma {:induction false} NoneUsed(m: seq<AddrEnt>, k: nat)
      requires k <= |m| && forall r :: 0 <= r < k ==> !m[r].used
      ensures Used(m, k) == 0
    {
      if k > 0 { NoneUsed(m, k - 1); }
    }

    /** `short_search`: bisection over the index finds what a scan of the live part finds; so with a
        complete index it answers exactly as a scan of the table. */
    method ShortSearch(short: u16) returns (found: bool, ref: nat)
      requires Good()
      ensures Lookup(short) == if found then Some(ref) else None
      ensures found ==> ref < TABLE_SIZE && Known(addrMap[ref])
      ensures !found ==> forall k :: 0 <= k < nSorted ==> addrMap[shortSorted[k]].addr != short
      ensures IndexComplete() ==> Scan(addrMap[..], short, 0) == if found then Some(ref) else None
    {
      found, ref := Bisect(short);
      ghost var m, ss, n := addrMap[..], shortSorted[..], nSorted;
      if found {
        FindIs(m, ss, n, short, ref);
        ListedKnown(m, ss, n, ref);
      }
      if IndexComplete() { FindIsScan(m, ss, n, short); }
    }

    method Bisect(short: u16) returns (found: bool, ref: nat)
      requires Good()
      ensures found ==> ref < TABLE_SIZE && addrMap[ref].addr == short && Listed(shortSorted[..], nSorted, ref)
      ensures !found ==> forall k :: 0 <= k < nSorted ==> addrMap[shortSorted[k]].addr != short
    {
      found, ref := false, 0;
      var l := 0;
      if nSorted > 1 {
        var r := nSorted;
        while l < r
          invariant l <= r <= nSorted
          invariant forall k :: 0 <= k < l ==> addrMap[shortSorted[k]].addr < short
          invariant forall k :: r <= k < nSorted ==> short <= addrMap[shortSorted[k]].addr
        {
          var i := l + (r - l) / 2;
          if short > addrMap[shortSorted[i]].addr {
            l := i + 1;
          } else {
            r := i;
          }
        }
      }
      if nSorted > 0 && l < nSorted && short == addrMap[shortSorted[l]].addr {
        ref := shortSorted[l];
        found := true;
        assert shortSorted[..][l] == ref;
      }
    }

    /** `ieee_search`, from a given start of its probe cycle. */
    method IeeeSearchFrom(c: Code, h: nat) returns (found: bool, ref: nat)
      requires Shape() && h < TABLE_SIZE
      ensures Probe(addrMap[..], c, h, 0) == if found then Some(ref) else None
    {
      ghost var m := addrMap[..];
      var i, cnt := h, 0;
      while cnt < TABLE_SIZE
        invariant cnt <= TABLE_SIZE && i == After(h, cnt)
        invariant Probe(m, c, h, 0) == Probe(m, c, h, cnt)
      {
        assert m[i] == addrMap[i];
        if addrMap[i].used && addrMap[i].ieee == c {
          return true, i;
        }
        AfterNext(h, cnt);
        cnt, i := cnt + 1, (i + 1) % TABLE_SIZE;
      }
      found, ref := false, 0;
    }

    /** `ieee_search`. */
    method IeeeSearch(c: Code) returns (found: bool, ref: nat)
      requires Shape()
      ensures IeeeLookup(addrMap[..], c) == if found then Some(ref) else None
    {
      found, ref := IeeeSearchFrom(c, Hash(c));
    }

    /** `del_short_sorted`. */
    method DelShortSorted(ref: byte)
      requires Good()
      modifies this`nSorted, shortSorted
      ensures (shortSorted[..], nSorted) == DelIndex(old(shortSorted[..]), old(nSorted), ref)
    {
      ghost var ss, n := shortSorted[..], nSorted;
      ghost var h := Find(ss, n, ref);
      SoundNoRepeat(addrMap[..], ss, n, -1);
      var dec, i := 0, 0;
      while i < nSorted
        invariant i <= n == nSorted
        invariant i <= h ==> dec == 0 && shortSorted[..] == ss
        invariant i > h ==> shortSorted[..] == if h < n - 1 then Shift(ss, h, n) else ss
        invariant i > h ==> dec == if i == n && h < n - 1 && ss[n] == ref then 2 else 1
      {
        assert i != h ==> (i < n - 1 || i < h) ==> shortSorted[i] != ref;
        if shortSorted[i] == ref {
          dec := dec + 1;
          if i != nSorted - 1 {
            ShiftDown(i);
          }
        }
        i := i + 1;
      }
      nSorted := nSorted - dec;
    }

    /** Its move, of one octet more than the live ones behind place `i`. */
    method ShiftDown(i: nat)
      requires i < nSorted < shortSorted.Length
      modifies shortSorted
      ensures shortSorted[..] == Shift(old(shortSorted[..]), i, nSorted)
    {
      forall k | i <= k < nSorted { shortSorted[k] := shortSorted[k + 1]; }
    }

    /** The bisection of `add_short_sorted`. */
    method FindPlace(short: u16, ghost excl: int) returns (l: nat)
      requires Shape()
      requires Sound(addrMap[..], shortSorted[..], nSorted, excl)
      requires forall k :: 0 <= k < nSorted ==> addrMap[shortSorted[k]].addr != short
      ensures PlaceFor(addrMap[..], shortSorted[..], nSorted, short, l)
    {
      l := 0;
      if nSorted > 1 {
        var r := nSorted;
        while l < r
          invariant l <= r <= nSorted
          invariant forall k :: 0 <= k < l ==> addrMap[shortSorted[k]].addr < short
          invariant forall k :: r <= k < nSorted ==> short < addrMap[shortSorted[k]].addr
        {
          var i := l + (r - l) / 2;
          if short >= addrMap[shortSorted[i]].addr {
            l := i + 1;
          } else {
            r := i;
          }
        }
      }
      if nSorted > 0 && l < nSorted && short > addrMap[shortSorted[l]].addr {
        l := l + 1;
      }
    }

    /** `add_short_sorted`: `ref` is inserted where its short address belongs. */
    method AddShortSorted(ref: byte, short: u16) returns (ghost l: nat)
      requires Shape() && ref < TABLE_SIZE
      requires Sound(addrMap[..], shortSorted[..], nSorted, ref)
      requires forall k :: 0 <= k < nSorted ==> addrMap[shortSorted[k]].addr != short
      modifies this`nSorted, shortSorted
      ensures old(nSorted) < TABLE_SIZE && nSorted == old(nSorted) + 1
      ensures PlaceFor(addrMap[..], old(shortSorted[..]), old(nSorted), short, l)
      ensures shortSorted[..] == AddIndex(old(shortSorted[..]), old(nSorted), l, ref)
      ensures shortSorted[..][nSorted..] == old(shortSorted[..])[nSorted..]
    {
      RoomFor(addrMap[..], shortSorted[..], nSorted, ref);
      var p := FindPlace(short, ref);
      l := p;
      InsertOctet(p, ref);
    }

    /** Its move and write. */
    method InsertOctet(p: nat, ref: byte)
      requires shortSorted.Length == TABLE_SIZE + 1 && p <= nSorted < TABLE_SIZE
      modifies this`nSorted, shortSorted
      ensures nSorted == old(nSorted) + 1
      ensures shortSorted[..] == AddIndex(old(shortSorted[..]), old(nSorted), p, ref)
      ensures shortSorted[..][nSorted..] == old(shortSorted[..])[nSorted..]
    {
      if p < nSorted {
        forall k | p <= k < nSorted { shortSorted[k + 1] := shortSorted[k]; }
      }
      shortSorted[p] := ref;
      nSorted := nSorted + 1;
    }

    /** One of the two loops of `clock_tick`: the hand moves up to `end`, at most until `nElements` used
        entries were seen; the first used, unlocked entry it meets loses its clock bit and stops it. */
    method Sweep(end: nat, seen: int) returns (cnt: int, t: Option<nat>)
      requires Shape() && clockI <= end <= TABLE_SIZE
      modifies this`clockI, addrMap
      ensures old(clockI) <= clockI <= end
      ensures t.None? ==> addrMap[..] == old(addrMap[..]) && (clockI == end || cnt >= nElements)
                          && cnt == seen + Used(addrMap[..], clockI) - Used(addrMap[..], old(clockI))
                          && forall r :: old(clockI) <= r < clockI ==> !Idle(addrMap[..][r])
      ensures t.Some? ==> old(clockI) <= t.value < end && Idle(old(addrMap[t.value])) && clockI == t.value + 1
                          && addrMap[..] == old(addrMap[..])[t.value := old(addrMap[t.value]).(clock := false)]
                          && forall r :: old(clockI) <= r < t.value ==> !Idle(old(addrMap[..])[r])
    {
      ghost var m := addrMap[..];
      cnt := seen;
      while clockI < end && cnt < nElements
        invariant old(clockI) <= clockI <= end
        invariant cnt == seen + Used(m, clockI) - Used(m, old(clockI))
        invariant addrMap[..] == m && forall r :: old(clockI) <= r < clockI ==> !Idle(m[r])
      {
        clockI := clockI + 1;
        if addrMap[clockI - 1].used {
          cnt := cnt + 1;
          if addrMap[clockI - 1].lockCnt == 0 {
            addrMap[clockI - 1] := addrMap[clockI - 1].(clock := false);
            t := Some(clockI - 1);
            return;
          }
        }
      }
      t := None;
    }

    /** `clock_tick`: clears the clock bit of the first used, unlocked entry in cyclic order from the
        hand, if there is one, and of no other. */
    method ClockTick() returns (ghost t: Option<nat>)
      requires Shape() && clockI <= TABLE_SIZE
      requires nElements == Used(addrMap[..], TABLE_SIZE)
      modifies this`clockI, addrMap
      ensures clockI <= TABLE_SIZE
      ensures t.None? ==> addrMap[..] == old(addrMap[..])
                          && forall r :: 0 <= r < TABLE_SIZE ==> !(old(addrMap[r].used) && old(addrMap[r].lockCnt) == 0)
      ensures t.Some? ==> t.value < TABLE_SIZE && HandOn(old(addrMap[..]), old(clockI), t.value) && clockI == t.value + 1
                          && addrMap[..] == old(addrMap[..])[t.value := old(addrMap[t.value]).(clock := false)]
    {
      ghost var m := addrMap[..];
      var limit := clockI;
      UsedGrows(m, 0, limit);
      var cnt, found := Sweep(TABLE_SIZE, 0);
      UsedGrows(m, clockI, TABLE_SIZE);
      if found.None? && cnt < nElements {
        clockI := 0;
        cnt, found := Sweep(limit, cnt);
        UsedGrows(m, clockI, limit);
      }
      t := found;
    }

    /** The search of `addr_add` for a place: the first unused entry in cyclic order from `start`. */
    method FindUnused(start: nat) returns (ok: bool, i: nat)
      requires Shape() && start < TABLE_SIZE
      ensures i < TABLE_SIZE && (ok ==> !addrMap[i].used)
      ensures ok ==> forall r :: 0 <= r < TABLE_SIZE && !addrMap[r].used ==> NotEarlier(start, i, r)
      ensures !ok ==> forall r :: 0 <= r < TABLE_SIZE ==> addrMap[r].used
    {
      i := start;
      ghost var cnt := 0;
      while true
        invariant cnt < TABLE_SIZE && i == After(start, cnt)
        invariant forall j :: 0 <= j < cnt ==> addrMap[After(start, j)].used
        decreases TABLE_SIZE - cnt
      {
        if !addrMap[i].used {
          forall r | 0 <= r < TABLE_SIZE && !addrMap[r].used ensures NotEarlier(start, i, r) {
            var j := CycleReaches(start, r);
            CycleOrder(start, cnt, j);
          }
          return true, i;
        }
        AfterNext(start, cnt);
        i := (i + 1) % TABLE_SIZE;
        cnt := cnt + 1;
        if i == start {
          break;
        }
      }
      assert cnt == TABLE_SIZE;
      forall r | 0 <= r < TABLE_SIZE ensures addrMap[r].used {
        var j := CycleReaches(start, r);
      }
      ok := false;
    }

    /** The part of `addr_add` that fills the place found and lists it, before it counts as used. */
    method FillPlace(ref: nat, code: Option<Code>, short: u16)
      requires Good() && ref < TABLE_SIZE && !addrMap[ref].used
      requires forall k :: 0 <= k < nSorted ==> addrMap[shortSorted[k]].addr != short
      modifies this`nSorted, addrMap, shortSorted
      ensures var m, e := old(addrMap[..]), Filled(old(addrMap[ref]), code, short);
              && addrMap[..] == m[ref := e.(used := false)]
              && Sound(m[ref := e], shortSorted[..], nSorted, -1)
              && (Complete(m[ref := e], shortSorted[..], nSorted, -1) <==> old(IndexComplete()))
              && Index() == old(Index()) + if short != UNKNOWN_SHORT then {ref} else {}
      ensures nSorted <= TABLE_SIZE && shortSorted[..][nSorted..] == old(shortSorted[..])[nSorted..]
    {
      ghost var m, ss, n, e := addrMap[..], shortSorted[..], nSorted, Filled(addrMap[ref], code, short);
      WritePlace(ref, code, short);
      ReadyToList(m, ss, n, ref, e.(used := false), short);
      ghost var l := ListPlace(ref, short);
      OccupyIndex(m, ss, n, l, ref, e);
    }

    /** An unused entry may be filled while the index does not list it. */
    static lemma ReadyToList(m: seq<AddrEnt>, ss: seq<byte>, n: nat, ref: nat, e: AddrEnt, short: u16)
      requires Sound(m, ss, n, -1) && ref < TABLE_SIZE && !m[ref].used
      requires forall k :: 0 <= k < n ==> m[ss[k]].addr != short
      ensures Sound(m[ref := e], ss, n, ref) && forall k :: 0 <= k < n ==> m[ref := e][ss[k]].addr != short
    {
      UnknownRewrite(m, ss, n, ref, e);
      forall k | 0 <= k < n ensures m[ref := e][ss[k]].addr != short {
        assert Known(m[ss[k]]);
      }
    }

    /** Its change to the index. */
    method ListPlace(ref: nat, short: u16) returns (ghost l: nat)
      requires Shape() && ref < TABLE_SIZE && Sound(addrMap[..], shortSorted[..], nSorted, ref)
      requires forall k :: 0 <= k < nSorted ==> addrMap[shortSorted[k]].addr != short
      modifies this`nSorted, shortSorted
      ensures nSorted <= TABLE_SIZE && shortSorted[..][nSorted..] == old(shortSorted[..])[nSorted..]
      ensures Index() == ListedSet(old(shortSorted[..]), old(nSorted)) + if short != UNKNOWN_SHORT then {ref} else {}
      ensures if short != UNKNOWN_SHORT then
                && PlaceFor(addrMap[..], old(shortSorted[..]), old(nSorted), short, l) && old(nSorted) < TABLE_SIZE
                && nSorted == old(nSorted) + 1 && shortSorted[..] == AddIndex(old(shortSorted[..]), old(nSorted), l, ref)
              else nSorted == old(nSorted) && shortSorted[..] == old(shortSorted[..])
    {
      l := 0;
      if short != UNKNOWN_SHORT {
        ghost var ss, n := shortSorted[..], nSorted;
        l := AddShortSorted(ref, short);
        AddIndexSet(ss, n, l, ref);
      }
    }

    /** Its writes to the entry. */
    method WritePlace(ref: nat, code: Option<Code>, short: u16)
      requires Shape() && ref < TABLE_SIZE && !addrMap[ref].used
      modifies addrMap
      ensures addrMap[..] == old(addrMap[..])[ref := Filled(old(addrMap[ref]), code, short).(used := false)]
    {
      ghost var m := addrMap[..];
      addrMap[ref] := addrMap[ref].(addr := short, clock := true);
      addrMap[ref] := addrMap[ref].(ieee := if code.Some? then code.value else ZERO_CODE);
      assert addrMap[..] == m[ref := addrMap[ref]];
    }

    /** The rest of `addr_add`: the entry counts as used. */
    method Occupy(ref: nat, code: Option<Code>, short: u16)
      requires Good() && ref < TABLE_SIZE && !addrMap[ref].used
      requires forall k :: 0 <= k < nSorted ==> addrMap[shortSorted[k]].addr != short
      requires code.Some? ==> forall r :: 0 <= r < TABLE_SIZE ==> !(addrMap[r].used && addrMap[r].ieee == code.value)
      modifies this`nElements, this`nSorted, addrMap, shortSorted
      ensures Good() && (IndexComplete() <==> old(IndexComplete()))
      ensures Index() == old(Index()) + if short != UNKNOWN_SHORT then {ref} else {}
      ensures shortSorted[..][nSorted..] == old(shortSorted[..])[nSorted..]
      ensures addrMap[..] == old(addrMap[..])[ref := Filled(old(addrMap[ref]), code, short)]
    {
      ghost var m, e := addrMap[..], Filled(addrMap[ref], code, short);
      OccupyUnique(m, ref, e);
      UsedUpdate(m, ref, e, TABLE_SIZE);
      UpdateTwice(m, ref, e.(used := false), e);
      FillPlace(ref, code, short);
      nElements := nElements + if !addrMap[ref].used then 1 else 0;
      ghost var m2 := addrMap[..];
      addrMap[ref] := addrMap[ref].(used := true);
      assert addrMap[..] == m2[ref := e];
    }

    /** `addr_add`: a new entry for an address that is in neither index, in the first unused place. */
    method AddrAdd(code: Option<Code>, short: u16) returns (ok: bool, ref: nat)
      requires Good()
      requires forall k :: 0 <= k < nSorted ==> addrMap[shortSorted[k]].addr != short
      requires code.Some? ==> forall r :: 0 <= r < TABLE_SIZE ==> !(addrMap[r].used && addrMap[r].ieee == code.value)
      modifies this, addrMap, shortSorted
      ensures Good() && (IndexComplete() <==> old(IndexComplete()))
      ensures !ok ==> addrMap[..] == old(addrMap[..]) && Index() == old(Index()) && forall r :: 0 <= r < TABLE_SIZE ==> addrMap[r].used
      ensures ok ==> Index() == old(Index()) + if short != UNKNOWN_SHORT then {ref} else {}
      ensures shortSorted[..][nSorted..] == old(shortSorted[..])[nSorted..]
      ensures ok ==> forall r :: 0 <= r < TABLE_SIZE && !old(addrMap[r].used) ==> NotEarlier(Home(code), ref, r)
      ensures ok ==> ref < TABLE_SIZE && !old(addrMap[ref].used)
                     && addrMap[ref] == Filled(old(addrMap[ref]), code, short)
                     && forall r :: 0 <= r < TABLE_SIZE && r != ref ==> SameButClock(old(addrMap[r]), addrMap[r])
      ensures ok ==> HandMoved(old(addrMap[..]), old(clockI), addrMap[..], ref)
    {
      ok, ref := FindUnused(Home(code));
      if !ok {
        return;
      }
      ghost var m, hand := addrMap[..], clockI;
      MoveHand();
      ghost var m1 := addrMap[..];
      StillFree(m, m1, shortSorted[..], nSorted, short, code, ref);
      Occupy(ref, code, short);
      OccupiedOnly(m, m1, addrMap[..], hand, ref);
    }

    static lemma StillFree(m: seq<AddrEnt>, m1: seq<AddrEnt>, ss: seq<byte>, n: nat, short: u16, code: Option<Code>, ref: nat)
      requires AllSameButClock(m, m1) && Sound(m, ss, n, -1) && ref < |m| && !m[ref].used
      requires forall k :: 0 <= k < n ==> m[ss[k]].addr != short
      requires code.Some? ==> forall r :: 0 <= r < |m| ==> !(m[r].used && m[r].ieee == code.value)
      ensures !m1[ref].used && Filled(m1[ref], code, short) == Filled(m[ref], code, short)
      ensures forall k :: 0 <= k < n ==> m1[ss[k]].addr != short
      ensures code.Some? ==> forall r :: 0 <= r < |m| ==> !(m1[r].used && m1[r].ieee == code.value)
    {
      assert forall r :: 0 <= r < |m| ==> SameButClock(m[r], m1[r]);
    }

    static lemma OccupiedOnly(m: seq<AddrEnt>, m1: seq<AddrEnt>, m2: seq<AddrEnt>, hand: nat, ref: nat)
      requires AllSameButClock(m, m1) && HandMoved(m, hand, m1, -1) && ref < |m| && |m2| == |m| && m2 == m1[ref := m2[ref]]
      ensures forall r :: 0 <= r < |m| && r != ref ==> SameButClock(m[r], m2[r])
      ensures HandMoved(m, hand, m2, ref)
    {
    }

    /** The hand stops at one entry only. */
    static lemma OneHand(m: seq<AddrEnt>, hand: nat, t: nat)
      requires |m| == TABLE_SIZE && t < TABLE_SIZE && HandOn(m, hand, t)
      ensures forall r :: 0 <= r < TABLE_SIZE && HandOn(m, hand, r) ==> r == t
    {
    }

    /** `clock_tick` as `addr_add` uses it: it changes nothing that matters to the indexes. */
    method MoveHand()
      requires Good()
      modifies this`clockI, addrMap
      ensures Good() && (IndexComplete() <==> old(IndexComplete())) && AllSameButClock(old(addrMap[..]), addrMap[..])
      ensures HandMoved(old(addrMap[..]), old(clockI), addrMap[..], -1)
    {
      ghost var m, hand := addrMap[..], clockI;
      ghost var t := ClockTick();
      if t.Some? { OneHand(m, hand, t.value); }
      assert AllSameButClock(m, addrMap[..]);
      ClockFrame(m, addrMap[..], shortSorted[..], nSorted, -1);
    }

    /** `zb_address_delete`: the entry becomes unused and leaves the index, which stays complete exactly
        when the removal loses no other entry. Nothing tests that the entry was in use: if it was not,
        the element count is wrong afterwards. */
    method Delete(ref: nat)
      requires Good() && ref < TABLE_SIZE
      modifies this`nElements, this`nSorted, addrMap, shortSorted
      ensures old(addrMap[ref].used) ==> Good()
      ensures !old(addrMap[ref].used) ==> !Good()
      ensures addrMap[..] == old(addrMap[..])[ref := old(addrMap[ref]).(used := false)]
      ensures (shortSorted[..], nSorted) == DelIndex(old(shortSorted[..]), old(nSorted), ref)
      ensures old(IndexComplete()) ==> (IndexComplete() <==> !Loses(old(shortSorted[..]), old(nSorted), ref))
    {
      ghost var m, ss, n := addrMap[..], shortSorted[..], nSorted;
      DeletedTable(m, ss, n, ref);
      DelShortSorted(ref);
      addrMap[ref] := addrMap[ref].(used := false);
      nElements := if nElements == 0 then 0xffff_ffff else nElements - 1;
      assert addrMap[..] == m[ref := m[ref].(used := false)];
    }

    /** What a deletion does to the indexes and the count. */
    static lemma DeletedTable(m: seq<AddrEnt>, ss: seq<byte>, n: nat, ref: nat)
      requires Sound(m, ss, n, -1) && UniqueIeee(m) && ref < TABLE_SIZE
      ensures var m1 := m[ref := m[ref].(used := false)];
              var (ss1, n1) := DelIndex(ss, n, ref);
              && Sound(m1, ss1, n1, -1) && UniqueIeee(m1)
              && Used(m1, TABLE_SIZE) == Used(m, TABLE_SIZE) - (if m[ref].used then 1 else 0)
              && (Complete(m, ss, n, -1) ==> (Complete(m1, ss1, n1, -1) <==> !Loses(ss, n, ref)))
    {
      var e := m[ref].(used := false);
      var (ss1, n1) := DelIndex(ss, n, ref);
      DelIndexSound(m, ss, n, ref);
      if Complete(m, ss, n, -1) { DelIndexExact(m, ss, n, ref); }
      OccupyUnused(m, ref, e);
      UsedUpdate(m, ref, e, TABLE_SIZE);
      ExcludedRewrite(m, ss1, n1, ref, e);
    }

    static lemma OccupyUnused(m: seq<AddrEnt>, ref: nat, e: AddrEnt)
      requires UniqueIeee(m) && ref < |m| && !e.used
      ensures UniqueIeee(m[ref := e])
    {
    }

    /** Fields the index does not depend on may change. */
    static lemma FieldFrame(m: seq<AddrEnt>, ref: nat, e: AddrEnt, ss: seq<byte>, n: nat)
      requires Sound(m, ss, n, -1) && ref < TABLE_SIZE && e.used == m[ref].used && e.addr == m[ref].addr
      ensures Sound(m[ref := e], ss, n, -1)
      ensures Complete(m[ref := e], ss, n, -1) <==> Complete(m, ss, n, -1)
      ensures Used(m[ref := e], TABLE_SIZE) == Used(m, TABLE_SIZE)
      ensures UniqueIeee(m) && e.ieee == m[ref].ieee ==> UniqueIeee(m[ref := e])
    {
      var m' := m[ref := e];
      assert forall q :: 0 <= q < |m| ==> m'[q].used == m[q].used && m'[q].addr == m[q].addr && Known(m'[q]) == Known(m[q]);
      UsedUpdate(m, ref, e, TABLE_SIZE);
    }

    /** Writes fields of an entry that no index depends on. */
    method SetField(ref: nat, e: AddrEnt)
      requires Good() && ref < TABLE_SIZE
      requires e.used == addrMap[ref].used && e.addr == addrMap[ref].addr
      requires e.ieee == addrMap[ref].ieee || e.ieee == ZERO_CODE
               || forall r :: 0 <= r < TABLE_SIZE && r != ref && addrMap[r].used ==> addrMap[r].ieee != e.ieee
      modifies addrMap
      ensures Good() && (IndexComplete() <==> old(IndexComplete()))
      ensures addrMap[..] == old(addrMap[..])[ref := e]
    {
      ghost var m := addrMap[..];
      FieldFrame(m, ref, e, shortSorted[..], nSorted);
      if e.ieee != m[ref].ieee { OccupyUnique(m, ref, e); }
      addrMap[ref] := e;
      assert addrMap[..] == m[ref := e];
    }

    /** Writes the clock bit, lock count or duplicate data of an entry. */
    method Touch(ref: nat, e: AddrEnt)
      requires Shape() && ref < TABLE_SIZE
      requires e.used == addrMap[ref].used && e.addr == addrMap[ref].addr && e.ieee == addrMap[ref].ieee
      modifies addrMap
      ensures Good() <==> old(Good())
      ensures Good() ==> (IndexComplete() <==> old(IndexComplete()))
      ensures addrMap[..] == old(addrMap[..])[ref := e]
    {
      ghost var m, ss, n := addrMap[..], shortSorted[..], nSorted;
      addrMap[ref] := e;
      ghost var m' := addrMap[..];
      assert m' == m[ref := e] && m == m'[ref := m[ref]];
      if Sound(m, ss, n, -1) { FieldFrame(m, ref, e, ss, n); }
      if Sound(m', ss, n, -1) { FieldFrame(m', ref, m[ref], ss, n); }
    }

    /** `zb_address_lock`: without `ok` the count would overflow, where the source stops. */
    method Lock(ref: nat) returns (ok: bool)
      requires Shape() && ref < TABLE_SIZE
      modifies addrMap
      ensures Good() <==> old(Good())
      ensures Good() ==> (IndexComplete() <==> old(IndexComplete()))
      ensures ok <==> old(addrMap[ref]).lockCnt < MAX_LOCKS
      ensures addrMap[..] == if ok then old(addrMap[..])[ref := Locked(old(addrMap[ref]))] else old(addrMap[..])
    {
      ok := addrMap[ref].lockCnt < MAX_LOCKS;
      if ok {
        Touch(ref, Locked(addrMap[ref]));
      }
    }

    /** Takes an entry out of the index if its short address is known. */
    method Unlist(ref: nat, ghost short: u16)
      requires Good() && ref < TABLE_SIZE && addrMap[ref].used
      requires forall k :: 0 <= k < nSorted && shortSorted[k] != ref ==> addrMap[shortSorted[k]].addr != short
      modifies this`nSorted, shortSorted
      ensures (shortSorted[..], nSorted) == DelIndex(old(shortSorted[..]), old(nSorted), ref)
      ensures Sound(addrMap[..], shortSorted[..], nSorted, ref)
      ensures forall k :: 0 <= k < nSorted ==> addrMap[shortSorted[k]].addr != short
    {
      ghost var m, ss, n := addrMap[..], shortSorted[..], nSorted;
      DelIndexSound(m, ss, n, ref);
      UnknownNotListed(m, ss, n, ref);
      if addrMap[ref].addr != UNKNOWN_SHORT {
        DelShortSorted(ref);
      }
      forall k | 0 <= k < nSorted ensures m[shortSorted[k]].addr != short {
        OthersKept(m, ss, n, ref, k);
      }
    }

    /** An entry of known or unknown short address gets a new one and moves in the index. Nothing keeps
        the value of an unknown address from being listed. */
    method MoveInIndex(ref: nat, short: u16)
      requires Good() && ref < TABLE_SIZE && addrMap[ref].used
      requires forall k :: 0 <= k < nSorted && shortSorted[k] != ref ==> addrMap[shortSorted[k]].addr != short
      modifies this`nSorted, addrMap, shortSorted
      ensures Shape() && nSorted <= TABLE_SIZE && (Good() <==> short != UNKNOWN_SHORT)
      ensures addrMap[..] == old(addrMap[..])[ref := old(addrMap[ref]).(addr := short)]
      ensures Index() == AfterDel(old(shortSorted[..]), old(nSorted), ref) + {ref}
    {
      ghost var m, e := addrMap[..], addrMap[ref].(addr := short);
      UsedUpdate(m, ref, e, TABLE_SIZE);
      SameIeee(m, ref, e);
      Unlist(ref, short);
      ExcludedRewrite(m, shortSorted[..], nSorted, ref, e);
      addrMap[ref] := addrMap[ref].(addr := short);
      assert addrMap[..] == m[ref := e];
      ListEntry(ref, short);
    }

    /** Adds an entry that is the only known one the index may miss. */
    method ListEntry(ref: byte, short: u16)
      requires Shape() && ref < TABLE_SIZE && addrMap[ref].used && addrMap[ref].addr == short
      requires Sound(addrMap[..], shortSorted[..], nSorted, ref)
      requires forall k :: 0 <= k < nSorted ==> addrMap[shortSorted[k]].addr != short
      modifies this`nSorted, shortSorted
      ensures nSorted <= TABLE_SIZE && (Sound(addrMap[..], shortSorted[..], nSorted, -1) <==> short != UNKNOWN_SHORT)
      ensures Index() == ListedSet(old(shortSorted[..]), old(nSorted)) + {ref as int}
    {
      ghost var m, ss, n := addrMap[..], shortSorted[..], nSorted;
      ghost var l := AddShortSorted(ref, short);
      assert addrMap[..] == m;
      if short != UNKNOWN_SHORT {
        AddIndexSound(m, m, ss, n, l, ref);
      } else {
        assert !Known(m[shortSorted[..][l]]);
      }
      AddIndexSet(ss, n, l, ref);
    }

    lemma AllListedKnown()
      requires Good()
      ensures forall k :: 0 <= k < nSorted ==> addrMap[shortSorted[k]].addr != UNKNOWN_SHORT
    {
      forall k | 0 <= k < nSorted ensures addrMap[shortSorted[k]].addr != UNKNOWN_SHORT {
        assert Known(addrMap[..][shortSorted[..][k]]);
      }
    }

    static lemma SameIeee(m: seq<AddrEnt>, ref: nat, e: AddrEnt)
      requires UniqueIeee(m) && ref < |m| && e.used == m[ref].used && e.ieee == m[ref].ieee
      ensures UniqueIeee(m[ref := e])
    {
    }

    static lemma UnknownNotListed(m: seq<AddrEnt>, ss: seq<byte>, n: nat, ref: byte)
      requires Sound(m, ss, n, -1) && ref < TABLE_SIZE
      ensures !Known(m[ref]) ==> DelIndex(ss, n, ref) == (ss, n)
    {
      if Find(ss, n, ref) < n { assert Known(m[ss[Find(ss, n, ref)]]); }
    }

    /** What a removal leaves listed was listed, elsewhere than `ref`. */
    static lemma OthersKept(m: seq<AddrEnt>, ss: seq<byte>, n: nat, ref: byte, k: nat)
      requires Sound(m, ss, n, -1) && k < DelIndex(ss, n, ref).1
      ensures DelIndex(ss, n, ref).0[k] != ref
      ensures exists j :: 0 <= j < n && ss[j] == DelIndex(ss, n, ref).0[k]
    {
      var (ss', n') := DelIndex(ss, n, ref);
      assert Listed(ss', n', ss'[k]);
      DelIndexLists(m, ss, n, ref, ss'[k]);
    }

    /** The tail of `zb_address_update`: entry `ref` gets both addresses and moves in the index if its
        short address changes. Only a change to the value of an unknown address spoils the table. */
    method SetAddresses(ref: nat, c: Code, short: u16)
      requires Good() && ref < TABLE_SIZE && addrMap[ref].used
      requires forall k :: 0 <= k < nSorted && shortSorted[k] != ref ==> addrMap[shortSorted[k]].addr != short
      requires c == ZERO_CODE || forall r :: 0 <= r < TABLE_SIZE && r != ref && addrMap[r].used ==> addrMap[r].ieee != c
      modifies this`nSorted, addrMap, shortSorted
      ensures Shape() && nSorted <= TABLE_SIZE
      ensures Good() <==> short != UNKNOWN_SHORT || old(addrMap[ref].addr) == UNKNOWN_SHORT
      ensures addrMap[..] == old(addrMap[..])[ref := old(addrMap[ref]).(ieee := c, addr := short, clock := true)]
      ensures Index() == if old(addrMap[ref].addr) == short then old(Index())
                         else AfterDel(old(shortSorted[..]), old(nSorted), ref) + {ref}
      ensures old(addrMap[ref].addr) == short ==> shortSorted[..] == old(shortSorted[..]) && nSorted == old(nSorted)
    {
      ghost var m := addrMap[..];
      var e := addrMap[ref].(ieee := c);
      SetField(ref, e);
      assert addrMap[ref] == addrMap[..][ref] == e;
      if addrMap[ref].addr != short {
        MoveInIndex(ref, short);
        UpdateTwice(m, ref, e, e.(addr := short));
      }
      ghost var e2 := addrMap[ref];
      assert addrMap[..] == m[ref := e2] && e2 == e.(addr := short);
      UpdateTwice(m, ref, e2, e2.(clock := true));
      Touch(ref, addrMap[ref].(clock := true));
    }
  }
}
