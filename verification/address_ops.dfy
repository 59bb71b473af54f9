/** The lookup and update entry points of common/zb_address.c over the address table. They are stated
    for every good table, whether or not its index has lost an entry. */
module AddressOps {
  import opened Types
  import opened AddressIndex
  import opened AddressTables

  /** The last two stand for assertions at which the source stops. */
  datatype Ret = RetOk | RetNotFound | RetOverflow | RetConflict | RetLockOverflow

  /** Everything but, at most, `ref` and the clock bits is as before. */
  ghost predicate OthersSame(m: seq<AddrEnt>, m': seq<AddrEnt>, ref: nat) {
    |m| == |m'| && forall r :: 0 <= r < |m| && r != ref ==> SameButClock(m[r], m'[r])
  }

  ghost predicate Full(m: seq<AddrEnt>) { forall r :: 0 <= r < |m| ==> m[r].used }

  /** An entry after a lookup found it: touched, and locked if asked. */
  function Touched(e: AddrEnt, lock: bool): AddrEnt {
    if lock && e.lockCnt < MAX_LOCKS then Locked(e) else e.(clock := true)
  }

  function LockRet(e: AddrEnt, lock: bool): Ret {
    if lock && e.lockCnt >= MAX_LOCKS then RetLockOverflow else RetOk
  }

  /** The lock a caller of a lookup may ask for. */
  method LockIf(t: AddressTable, ref: nat, lock: bool) returns (ret: Ret)
    requires t.Shape() && ref < TABLE_SIZE && t.addrMap[ref].clock
    modifies t.addrMap
    ensures t.Good() <==> old(t.Good())
    ensures t.Good() ==> (t.IndexComplete() <==> old(t.IndexComplete()))
    ensures t.addrMap[..] == old(t.addrMap[..])[ref := Touched(old(t.addrMap[ref]), lock)]
    ensures ret == LockRet(old(t.addrMap[ref]), lock)
  {
    ret := RetOk;
    if lock {
      var ok := t.Lock(ref);
      ret := if ok then RetOk else RetLockOverflow;
    }
  }

  // ---------------------------------------------------------------- lookups

  /** What a lookup that found `s`, or nothing, does to a table `m` with index `ix`: the entry found is
      touched; else an unused one is filled if asked, the first in cyclic order from the address's home;
      else nothing happens. */
  ghost predicate LookedUp(
    m: seq<AddrEnt>, ix: set<int>, m': seq<AddrEnt>, ix': set<int>,
    s: Option<nat>, code: Option<Code>, short: u16, create: bool, lock: bool, ret: Ret, ref: nat)
    requires |m| == |m'| == TABLE_SIZE && (s.Some? ==> s.value < TABLE_SIZE)
  {
    if s.Some? then
      ref == s.value && ret == LockRet(m[ref], lock) && m' == m[ref := Touched(m[ref], lock)] && ix' == ix
    else if !create || Full(m) then
      ret == (if create then RetOverflow else RetNotFound) && m' == m && ix' == ix
    else
      && ref < TABLE_SIZE && !m[ref].used && ret == LockRet(m[ref], lock)
      && (forall r :: 0 <= r < TABLE_SIZE && !m[r].used ==> NotEarlier(Home(code), ref, r))
      && m'[ref] == Touched(Filled(m[ref], code, short), lock) && OthersSame(m, m', ref)
      && ix' == ix + if short != UNKNOWN_SHORT then {ref} else {}
  }

  /** Locking the entry a lookup returned. */
  lemma LookedUpLocked(
    m: seq<AddrEnt>, ix: set<int>, m1: seq<AddrEnt>, ix': set<int>,
    s: Option<nat>, code: Option<Code>, short: u16, create: bool, lock: bool, ref: nat)
    requires |m| == |m1| == TABLE_SIZE && ref < TABLE_SIZE && (s.Some? ==> s.value < TABLE_SIZE)
    requires LookedUp(m, ix, m1, ix', s, code, short, create, false, RetOk, ref)
    ensures LookedUp(m, ix, m1[ref := Touched(m1[ref], lock)], ix', s, code, short, create, lock, LockRet(m1[ref], lock), ref)
    ensures m1[ref].clock
  {
    if s.Some? { UpdateTwice(m, ref, m1[ref], Touched(m1[ref], lock)); }
  }

  /** The part of a lookup behind its search: touch the entry found, or add one. */
  method FoundOrAdd(t: AddressTable, found: bool, at: nat, code: Option<Code>, short: u16, create: bool) returns (ret: Ret, ref: nat)
    requires t.Good() && (found ==> at < TABLE_SIZE)
    requires !found ==> forall k :: 0 <= k < t.nSorted ==> t.addrMap[t.shortSorted[k]].addr != short
    requires !found && code.Some? ==>
               forall r :: 0 <= r < TABLE_SIZE ==> !(t.addrMap[r].used && t.addrMap[r].ieee == code.value)
    modifies t, t.addrMap, t.shortSorted
    ensures t.Good() && (t.IndexComplete() <==> old(t.IndexComplete()))
    ensures LookedUp(old(t.addrMap[..]), old(t.Index()), t.addrMap[..], t.Index(),
                     if found then Some(at) else None, code, short, create, false, ret, ref)
    ensures ret == RetOk ==> ref < TABLE_SIZE
    ensures t.shortSorted[..][t.nSorted..] == old(t.shortSorted[..])[t.nSorted..]
  {
    ret, ref := RetOk, at;
    if found {
      t.Touch(ref, t.addrMap[ref].(clock := true));
    } else if create {
      var ok;
      ok, ref := t.AddrAdd(code, short);
      ret := if ok then RetOk else RetOverflow;
    } else {
      ret := RetNotFound;
    }
  }

  /** `zb_address_by_short`. */
  method ByShort(t: AddressTable, short: u16, create: bool, lock: bool) returns (ret: Ret, ref: nat)
    requires t.Good()
    modifies t, t.addrMap, t.shortSorted
    ensures t.Good() && (t.IndexComplete() <==> old(t.IndexComplete()))
    ensures LookedUp(old(t.addrMap[..]), old(t.Index()), t.addrMap[..], t.Index(),
                     old(t.Lookup(short)), None, short, create, lock, ret, ref)
    ensures t.shortSorted[..][t.nSorted..] == old(t.shortSorted[..])[t.nSorted..]
  {
    ghost var m, ix, s := t.addrMap[..], t.Index(), t.Lookup(short);
    var found, at := t.ShortSearch(short);
    ret, ref := FoundOrAdd(t, found, at, None, short, create);
    if ret == RetOk {
      LookedUpLocked(m, ix, t.addrMap[..], t.Index(), s, None, short, create, lock, ref);
      ret := LockIf(t, ref, lock);
    }
  }

  /** `zb_address_by_ieee` after compression. */
  method ByIeee(t: AddressTable, c: Code, create: bool, lock: bool) returns (ret: Ret, ref: nat)
    requires t.Good()
    modifies t, t.addrMap, t.shortSorted
    ensures t.Good() && (t.IndexComplete() <==> old(t.IndexComplete()))
    ensures LookedUp(old(t.addrMap[..]), old(t.Index()), t.addrMap[..], t.Index(),
                     IeeeLookup(old(t.addrMap[..]), c), Some(c), UNKNOWN_SHORT, create, lock, ret, ref)
  {
    ghost var m, ix, s := t.addrMap[..], t.Index(), IeeeLookup(t.addrMap[..], c);
    IeeeLookupDecides(m, c);
    t.AllListedKnown();
    var found, at := t.IeeeSearch(c);
    ret, ref := FoundOrAdd(t, found, at, Some(c), UNKNOWN_SHORT, create);
    if ret == RetOk {
      LookedUpLocked(m, ix, t.addrMap[..], t.Index(), s, Some(c), UNKNOWN_SHORT, create, lock, ref);
      ret := LockIf(t, ref, lock);
    }
  }

  // ---------------------------------------------------------------- what an update decides

  /** `Replace` deletes one of two entries that disagree. */
  datatype Plan = Conflict | NewEntry | Take(ref: nat) | Replace(gone: nat, ref: nat)

  function PlanFor(m: seq<AddrEnt>, ss: seq<byte>, n: nat, c: Code, short: u16): (p: Plan)
    requires |m| == TABLE_SIZE && n <= |ss|
    ensures p.Take? ==> p.ref < TABLE_SIZE
    ensures p.Replace? ==> p.ref < TABLE_SIZE && p.gone < TABLE_SIZE && p.ref != p.gone && m[p.gone].lockCnt == 0
  {
    var s, l := IndexFind(m, ss, n, short), IeeeLookup(m, c);
    if s.Some? && l.Some? && s != l then
      if m[s.value].lockCnt == 0 then Replace(s.value, l.value)
      else if m[l.value].lockCnt == 0 then Replace(l.value, s.value)
      else Conflict
    else if s.Some? then Take(s.value)
    else if l.Some? then Take(l.value)
    else NewEntry
  }

  /** An entry with both addresses set. */
  function Readdressed(e: AddrEnt, c: Code, short: u16): AddrEnt { e.(ieee := c, addr := short, clock := true) }

  /** The entries listed after entry `ref` has got short address `short`. */
  ghost function Relisted(m: seq<AddrEnt>, ss: seq<byte>, n: nat, ref: nat, short: u16): set<int>
    requires ref < |m| && ref < 256 && n < |ss|
  {
    if m[ref].addr == short then ListedSet(ss, n) else AfterDel(ss, n, ref) + {ref}
  }

  /** What an update does to a table `m` whose index is the first `n` octets of `ss`. */
  ghost predicate Updated(
    m: seq<AddrEnt>, ss: seq<byte>, n: nat, m': seq<AddrEnt>, ix': set<int>,
    c: Code, short: u16, lock: bool, ret: Ret, ref: nat)
    requires |m| == |m'| == TABLE_SIZE && n < |ss|
  {
    match PlanFor(m, ss, n, c, short)
    case Conflict => ret == RetConflict && m' == m && ix' == ListedSet(ss, n)
    case NewEntry =>
      LookedUp(m, ListedSet(ss, n), m', ix', None, Some(c), short, true, lock, ret, ref)
    case Take(r) =>
      && ref == r && ret == LockRet(m[r], lock)
      && m' == m[r := Touched(Readdressed(m[r], c, short), lock)]
      && ix' == Relisted(m, ss, n, r, short)
    case Replace(g, r) =>
      && ref == r && ret == LockRet(m[r], lock)
      && m' == m[g := m[g].(used := false)][r := Touched(Readdressed(m[r], c, short), lock)]
      && ix' == Relisted(m, DelIndex(ss, n, g).0, DelIndex(ss, n, g).1, r, short)
  }

  // ---------------------------------------------------------------- why the indexes survive

  /** No listed entry other than `ref` has short address `short`. */
  ghost predicate ShortFree(m: seq<AddrEnt>, ss: seq<byte>, n: nat, short: u16, ref: nat)
    requires |m| == TABLE_SIZE && n <= |ss|
  {
    forall k :: 0 <= k < n && ss[k] != ref ==> ss[k] < TABLE_SIZE && m[ss[k]].addr != short
  }

  /** No used entry other than `ref` has code `c`, if it is a real one. */
  ghost predicate CodeUnused(m: seq<AddrEnt>, c: Code, ref: nat) {
    c == ZERO_CODE || forall r :: 0 <= r < |m| && r != ref && m[r].used ==> m[r].ieee != c
  }

  lemma FoundIsUsed(m: seq<AddrEnt>, ss: seq<byte>, n: nat, short: u16)
    requires Sound(m, ss, n, -1) && IndexFind(m, ss, n, short).Some?
    ensures Known(m[IndexFind(m, ss, n, short).value])
  {
    ListedKnown(m, ss, n, IndexFind(m, ss, n, short).value);
  }

  lemma ShortFreeByFind(m: seq<AddrEnt>, ss: seq<byte>, n: nat, short: u16, ref: nat)
    requires Sound(m, ss, n, -1)
    requires IndexFind(m, ss, n, short) == None || IndexFind(m, ss, n, short) == Some(ref)
    ensures ShortFree(m, ss, n, short, ref)
  {
    forall k | 0 <= k < n && ss[k] != ref ensures m[ss[k]].addr != short {
      if m[ss[k]].addr == short {
        assert Listed(ss, n, ss[k]);
        FindIs(m, ss, n, short, ss[k]);
      }
    }
  }

  lemma TakeFree(m: seq<AddrEnt>, ss: seq<byte>, n: nat, c: Code, short: u16)
    requires Sound(m, ss, n, -1) && UniqueIeee(m) && PlanFor(m, ss, n, c, short).Take?
    ensures var r := PlanFor(m, ss, n, c, short).ref;
            m[r].used && ShortFree(m, ss, n, short, r) && CodeUnused(m, c, r)
  {
    var r := PlanFor(m, ss, n, c, short).ref;
    IeeeLookupDecides(m, c);
    ShortFreeByFind(m, ss, n, short, r);
    if IndexFind(m, ss, n, short).Some? { FoundIsUsed(m, ss, n, short); }
  }

  /** After entry `g` has left the index, only `keep` can still be listed with the short address, if
      one of the two is the entry that has it. */
  lemma ShortFreeAfterDelete(m: seq<AddrEnt>, ss: seq<byte>, n: nat, short: u16, g: byte, keep: nat)
    requires Sound(m, ss, n, -1) && g < TABLE_SIZE
    requires IndexFind(m, ss, n, short) == Some(g as nat) || IndexFind(m, ss, n, short) == Some(keep)
    ensures ShortFree(m, DelIndex(ss, n, g).0, DelIndex(ss, n, g).1, short, keep)
  {
    var (ss', n') := DelIndex(ss, n, g);
    forall k | 0 <= k < n' && ss'[k] != keep ensures ss'[k] < TABLE_SIZE && m[ss'[k]].addr != short {
      assert Listed(ss', n', ss'[k]);
      DelIndexLists(m, ss, n, g, ss'[k]);
      ListedKnown(m, ss, n, ss'[k]);
      if m[ss'[k]].addr == short { FindIs(m, ss, n, short, ss'[k]); }
    }
  }

  lemma ReplaceFree(m: seq<AddrEnt>, ss: seq<byte>, n: nat, c: Code, short: u16)
    requires Sound(m, ss, n, -1) && UniqueIeee(m) && PlanFor(m, ss, n, c, short).Replace?
    ensures var Replace(g, r) := PlanFor(m, ss, n, c, short);
            var m1, (ss1, n1) := m[g := m[g].(used := false)], DelIndex(ss, n, g);
            m[g].used && m1[r].used && ShortFree(m1, ss1, n1, short, r) && CodeUnused(m1, c, r)
  {
    var Replace(g, r) := PlanFor(m, ss, n, c, short);
    FoundIsUsed(m, ss, n, short);
    ShortFreeAfterDelete(m, ss, n, short, g, r);
    var (ss1, n1) := DelIndex(ss, n, g);
    var m1 := m[g := m[g].(used := false)];
    assert forall k :: 0 <= k < n1 && ss1[k] != r ==> m1[ss1[k]].addr == m[ss1[k]].addr;
  }

  // ---------------------------------------------------------------- the update

  /** The deletion that resolves a disagreement. */
  method MakeWay(t: AddressTable, gone: nat, ref: nat, c: Code, short: u16)
    requires t.Good() && PlanFor(t.addrMap[..], t.shortSorted[..], t.nSorted, c, short) == Replace(gone, ref)
    modifies t, t.addrMap, t.shortSorted
    ensures t.Good() && t.addrMap[..] == old(t.addrMap[..])[gone := old(t.addrMap[gone]).(used := false)]
    ensures (t.shortSorted[..], t.nSorted) == DelIndex(old(t.shortSorted[..]), old(t.nSorted), gone)
    ensures t.addrMap[ref].used && ShortFree(t.addrMap[..], t.shortSorted[..], t.nSorted, short, ref)
    ensures CodeUnused(t.addrMap[..], c, ref)
  {
    ReplaceFree(t.addrMap[..], t.shortSorted[..], t.nSorted, c, short);
    t.Delete(gone);
  }

  /** `zb_address_update` after compression, without its final lock, when an entry was found. */
  method Apply(t: AddressTable, gone: Option<nat>, ref: nat, c: Code, short: u16)
    requires t.Good()
    requires PlanFor(t.addrMap[..], t.shortSorted[..], t.nSorted, c, short)
             == if gone.Some? then Replace(gone.value, ref) else Take(ref)
    modifies t, t.addrMap, t.shortSorted
    ensures t.Shape() && t.nSorted <= TABLE_SIZE
    ensures t.Good() <==> short != UNKNOWN_SHORT || old(t.addrMap[ref].addr) == UNKNOWN_SHORT
    ensures t.addrMap[..]
            == if gone.Some? then
                 old(t.addrMap[..])[gone.value := old(t.addrMap[gone.value]).(used := false)][ref := Readdressed(old(t.addrMap[ref]), c, short)]
               else old(t.addrMap[..])[ref := Readdressed(old(t.addrMap[ref]), c, short)]
    ensures t.Index()
            == if gone.Some? then
                 var (ss1, n1) := DelIndex(old(t.shortSorted[..]), old(t.nSorted), gone.value);
                 Relisted(old(t.addrMap[..]), ss1, n1, ref, short)
               else Relisted(old(t.addrMap[..]), old(t.shortSorted[..]), old(t.nSorted), ref, short)
    ensures gone.None? && old(t.addrMap[ref].addr) == short ==>
              t.shortSorted[..] == old(t.shortSorted[..]) && t.nSorted == old(t.nSorted)
  {
    if gone.Some? {
      MakeWay(t, gone.value, ref, c, short);
    } else {
      TakeFree(t.addrMap[..], t.shortSorted[..], t.nSorted, c, short);
    }
    t.SetAddresses(ref, c, short);
  }

  /** `zb_address_update` after compression, without its final lock. */
  method Reconcile(t: AddressTable, c: Code, short: u16) returns (ret: Ret, ref: nat)
    requires t.Good()
    modifies t, t.addrMap, t.shortSorted
    ensures t.Shape() && t.nSorted <= TABLE_SIZE
    ensures Updated(old(t.addrMap[..]), old(t.shortSorted[..]), old(t.nSorted), t.addrMap[..], t.Index(), c, short, false, ret, ref)
    ensures t.Good() <==> !Spoils(old(t.addrMap[..]), c, short)
    ensures ret == RetOk ==> ref < TABLE_SIZE
    ensures var p := PlanFor(old(t.addrMap[..]), old(t.shortSorted[..]), old(t.nSorted), c, short);
            p.Take? && old(t.addrMap[..])[p.ref].addr == short ==>
              t.shortSorted[..] == old(t.shortSorted[..]) && t.nSorted == old(t.nSorted)
  {
    ghost var m, ss, n := t.addrMap[..], t.shortSorted[..], t.nSorted;
    ret := RetOk;
    var foundShort, foundLong, refLong;
    foundShort, ref := t.ShortSearch(short);
    foundLong, refLong := t.IeeeSearch(c);
    NoUnknownFound(m, ss, n);
    if foundShort || foundLong {
      var gone := None;
      if foundShort && foundLong {
        if ref != refLong {
          if t.addrMap[ref].lockCnt == 0 {
            gone, ref := Some(ref), refLong;
          } else if t.addrMap[refLong].lockCnt == 0 {
            gone := Some(refLong);
          } else {
            return RetConflict, ref;
          }
        }
      } else if foundLong {
        ref := refLong;
      }
      Apply(t, gone, ref, c, short);
    } else {
      IeeeLookupDecides(m, c);
      ret, ref := FoundOrAdd(t, false, 0, Some(c), short, true);
    }
  }

  lemma UpdatedLocked(
    m: seq<AddrEnt>, ss: seq<byte>, n: nat, m1: seq<AddrEnt>, ix': set<int>, c: Code, short: u16, lock: bool, ref: nat)
    requires |m| == |m1| == TABLE_SIZE && n < |ss| && ref < TABLE_SIZE
    requires Updated(m, ss, n, m1, ix', c, short, false, RetOk, ref)
    ensures Updated(m, ss, n, m1[ref := Touched(m1[ref], lock)], ix', c, short, lock, LockRet(m1[ref], lock), ref)
    ensures m1[ref].clock
  {
    match PlanFor(m, ss, n, c, short)
    case NewEntry => LookedUpLocked(m, ListedSet(ss, n), m1, ix', None, Some(c), short, true, lock, ref);
    case Take(r) => UpdateTwice(m, r, m1[r], Touched(m1[r], lock));
    case Replace(g, r) => UpdateTwice(m[g := m[g].(used := false)], r, m1[r], Touched(m1[r], lock));
    case _ =>
  }

  /** `zb_address_update` after compression, for every short address, 0xffff included. The table stays
      good unless the value of an unknown address is given for an entry that has a known one. */
  method Update(t: AddressTable, c: Code, short: u16, lock: bool) returns (ret: Ret, ref: nat)
    requires t.Good()
    modifies t, t.addrMap, t.shortSorted
    ensures t.Shape() && t.nSorted <= TABLE_SIZE
    ensures Updated(old(t.addrMap[..]), old(t.shortSorted[..]), old(t.nSorted), t.addrMap[..], t.Index(), c, short, lock, ret, ref)
    ensures t.Good() <==> !Spoils(old(t.addrMap[..]), c, short)
    ensures old(t.IndexComplete()) ==>
              (t.IndexComplete() <==> UpdateSafe(old(t.addrMap[..]), old(t.shortSorted[..]), old(t.nSorted), c, short))
  {
    ghost var m, ss, n := t.addrMap[..], t.shortSorted[..], t.nSorted;
    ret, ref := Reconcile(t, c, short);
    if ret == RetOk {
      UpdatedLocked(m, ss, n, t.addrMap[..], t.Index(), c, short, lock, ref);
      ret := LockIf(t, ref, lock);
    }
    if Complete(m, ss, n, -1) {
      UpdateComplete(m, ss, n, t.addrMap[..], t.shortSorted[..], t.nSorted, c, short, lock, ret, ref);
    }
  }

  /** An update to the value of an unknown short address, of an entry whose address is known. */
  predicate Spoils(m: seq<AddrEnt>, c: Code, short: u16)
    requires |m| == TABLE_SIZE
  {
    short == UNKNOWN_SHORT && IeeeLookup(m, c).Some? && m[IeeeLookup(m, c).value].addr != UNKNOWN_SHORT
  }

  lemma NoUnknownFound(m: seq<AddrEnt>, ss: seq<byte>, n: nat)
    requires Sound(m, ss, n, -1)
    ensures IndexFind(m, ss, n, UNKNOWN_SHORT).None?
  {
    if IndexFind(m, ss, n, UNKNOWN_SHORT).Some? {
      FoundIsUsed(m, ss, n, UNKNOWN_SHORT);
      assert false;
    }
  }

  // ---------------------------------------------------------------- what an update means

  /** Whether an update that succeeds leaves its entry out of the index: the entry keeps its short
      address, so that it is not listed anew, and was not listed, or is dropped by the deletion of the
      other entry. */
  ghost predicate Unlists(m: seq<AddrEnt>, ss: seq<byte>, n: nat, c: Code, short: u16)
    requires |m| == TABLE_SIZE && n < |ss|
  {
    match PlanFor(m, ss, n, c, short)
    case Take(r) => m[r].addr == short && IndexFind(m, ss, n, short) == None
    case Replace(g, r) =>
      m[r].addr == short && (IndexFind(m, ss, n, short) != Some(r) || r in LostSet(ss, n, g))
    case _ => false
  }

  /** After a successful update the short address finds the updated entry exactly if the update did not
      leave it out of the index; for every good table, whatever its index had lost before. */
  lemma UpdateFinds(
    m: seq<AddrEnt>, ss: seq<byte>, n: nat, m': seq<AddrEnt>, ss': seq<byte>, n': nat,
    c: Code, short: u16, lock: bool, ref: nat)
    requires Sound(m, ss, n, -1) && Sound(m', ss', n', -1) && short != UNKNOWN_SHORT
    requires Updated(m, ss, n, m', ListedSet(ss', n'), c, short, lock, RetOk, ref)
    ensures IndexFind(m', ss', n', short) == Some(ref) <==> !Unlists(m, ss, n, c, short)
  {
    ListedIsFound(m', ss', n', ref, short);
    match PlanFor(m, ss, n, c, short) {
      case Take(r) => if m[r].addr == short { ListedIsFound(m, ss, n, r, short); }
      case Replace(g, r) =>
        DelIndexSet(m, ss, n, g);
        if m[r].addr == short { ListedIsFound(m, ss, n, r, short); }
      case _ =>
    }
  }

  lemma ListedIsFound(m: seq<AddrEnt>, ss: seq<byte>, n: nat, r: nat, short: u16)
    requires Sound(m, ss, n, -1) && r < TABLE_SIZE && m[r].addr == short
    ensures r in ListedSet(ss, n) <==> IndexFind(m, ss, n, short) == Some(r)
  {
    if r in ListedSet(ss, n) { FindIs(m, ss, n, short, r); }
  }

  /** A successful update, in the terms of its callers: entry `ref` has both addresses; the IEEE address
      finds it, unless its code is that of entries without one, and the short address finds it exactly
      if the update does not leave it out of the index; at most one other entry is gone, and that one
      was not locked; the rest is as it was but for clock bits. */
  lemma UpdateMeans(
    m: seq<AddrEnt>, ss: seq<byte>, n: nat, m': seq<AddrEnt>, ss': seq<byte>, n': nat,
    c: Code, short: u16, lock: bool, ref: nat)
    requires Sound(m, ss, n, -1) && UniqueIeee(m) && Sound(m', ss', n', -1) && UniqueIeee(m')
    requires Updated(m, ss, n, m', ListedSet(ss', n'), c, short, lock, RetOk, ref)
    ensures ref < TABLE_SIZE && m'[ref].used && m'[ref].addr == short && m'[ref].ieee == c
    ensures c != ZERO_CODE ==> IeeeLookup(m', c) == Some(ref)
    ensures short != UNKNOWN_SHORT ==> (IndexFind(m', ss', n', short) == Some(ref) <==> !Unlists(m, ss, n, c, short))
    ensures short != UNKNOWN_SHORT && Complete(m', ss', n', -1) ==> Scan(m', short, 0) == Some(ref)
    ensures forall r :: 0 <= r < TABLE_SIZE && r != ref ==>
              SameButClock(m[r], m'[r])
              || (PlanFor(m, ss, n, c, short) == Replace(r, ref) && m[r].lockCnt == 0 && m'[r] == m[r].(used := false))
  {
    UpdateEntries(m, ss, n, m', ListedSet(ss', n'), c, short, lock, ref);
    if c != ZERO_CODE { OnlyOneIeee(m', c, ref); }
    if short != UNKNOWN_SHORT {
      UpdateFinds(m, ss, n, m', ss', n', c, short, lock, ref);
      if Complete(m', ss', n', -1) { OnlyOneShort(m', ss', n', short, ref); }
    }
  }

  lemma UpdateEntries(
    m: seq<AddrEnt>, ss: seq<byte>, n: nat, m': seq<AddrEnt>, ix': set<int>, c: Code, short: u16, lock: bool, ref: nat)
    requires Sound(m, ss, n, -1) && UniqueIeee(m) && |m'| == TABLE_SIZE
    requires Updated(m, ss, n, m', ix', c, short, lock, RetOk, ref)
    ensures ref < TABLE_SIZE && m'[ref].used && m'[ref].addr == short && m'[ref].ieee == c
    ensures forall r :: 0 <= r < TABLE_SIZE && r != ref ==>
              SameButClock(m[r], m'[r])
              || (PlanFor(m, ss, n, c, short) == Replace(r, ref) && m[r].lockCnt == 0 && m'[r] == m[r].(used := false))
  {
    match PlanFor(m, ss, n, c, short) {
      case Take(r) => TakeFree(m, ss, n, c, short);
      case Replace(g, r) => ReplaceFree(m, ss, n, c, short);
      case _ =>
    }
  }

  /** In a complete index only the scanned entry has the short address. */
  lemma OnlyOneShort(m: seq<AddrEnt>, ss: seq<byte>, n: nat, short: u16, r: nat)
    requires Sound(m, ss, n, -1) && Complete(m, ss, n, -1) && r < TABLE_SIZE
    requires Known(m[r]) && m[r].addr == short
    ensures Scan(m, short, 0) == Some(r)
  {
    IndexIsScan(m, ss, n, r, Scan(m, short, 0).value);
  }

  /** With unique codes only the looked-up entry has the code. */
  lemma OnlyOneIeee(m: seq<AddrEnt>, c: Code, r: nat)
    requires UniqueIeee(m) && |m| == TABLE_SIZE && r < TABLE_SIZE && m[r].used && m[r].ieee == c && c != ZERO_CODE
    ensures IeeeLookup(m, c) == Some(r)
  {
    IeeeLookupDecides(m, c);
  }

  /** The guard under which an update keeps the index complete: no removal it performs loses an entry,
      except that one it lists again at once may be lost. */
  predicate UpdateSafe(m: seq<AddrEnt>, ss: seq<byte>, n: nat, c: Code, short: u16)
    requires |m| == TABLE_SIZE && n < |ss|
  {
    match PlanFor(m, ss, n, c, short)
    case Take(r) => m[r].addr == short || !Loses(ss, n, r)
    case Replace(g, r) => if m[r].addr == short then !Loses(ss, n, g) else BothSafe(ss, n, g, r)
    case _ => true
  }

  /** The entries listed after one removal and one relisting, of a complete index. */
  lemma TakeComplete(m: seq<AddrEnt>, ss: seq<byte>, n: nat, m': seq<AddrEnt>, ss': seq<byte>, n': nat, r: nat, short: u16)
    requires Sound(m, ss, n, -1) && Complete(m, ss, n, -1) && r < TABLE_SIZE && |m'| == TABLE_SIZE && n' <= |ss'|
    requires forall q :: 0 <= q < TABLE_SIZE && q != r ==> m'[q] == m[q]
    requires m'[r].used == m[r].used && m'[r].addr == short && ListedSet(ss', n') == Relisted(m, ss, n, r, short)
    ensures Complete(m', ss', n', -1) <==> m[r].addr == short || !Loses(ss, n, r)
  {
    DelIndexSet(m, ss, n, r);
    if Loses(ss, n, r) { LostEntry(m, ss, n, -1, r); }
    assert forall q :: q in ListedSet(ss', n') <==> Listed(ss', n', q);
    assert forall q :: q in ListedSet(ss, n) <==> Listed(ss, n, q);
  }

  /** The entries listed after a deletion and a relisting, of a complete index. */
  lemma ReplaceComplete(m: seq<AddrEnt>, ss: seq<byte>, n: nat, m': seq<AddrEnt>, ss': seq<byte>, n': nat, g: nat, r: nat, short: u16)
    requires Sound(m, ss, n, -1) && Complete(m, ss, n, -1) && |m'| == TABLE_SIZE && n' <= |ss'|
    requires g < TABLE_SIZE && r < TABLE_SIZE && g != r && m[r].used
    requires forall q :: 0 <= q < TABLE_SIZE && q != r && q != g ==> m'[q] == m[q]
    requires !m'[g].used && m'[r].used && m'[r].addr == short
    requires ListedSet(ss', n') == Relisted(m, DelIndex(ss, n, g).0, DelIndex(ss, n, g).1, r, short)
    ensures Complete(m', ss', n', -1) <==> if m[r].addr == short then !Loses(ss, n, g) else BothSafe(ss, n, g, r)
  {
    var (ss1, n1) := DelIndex(ss, n, g);
    if m[r].addr == short {
      DelIndexExact(m, ss, n, g);
      SameListing(m, ss1, n1, g, m', ss', n');
    } else {
      var (ss2, n2) := DelIndex(ss1, n1, r);
      TwoRemovals(m, ss, n, g, r);
      SameListing(m[g := m[g].(used := false)], ss2, n2, r, m', ss', n');
    }
  }

  /** Completeness depends only on which entries are known and which are listed. */
  lemma SameListing(m: seq<AddrEnt>, ss: seq<byte>, n: nat, excl: nat, m': seq<AddrEnt>, ss': seq<byte>, n': nat)
    requires |m| == |m'| && n <= |ss| && n' <= |ss'| && excl < |m|
    requires forall q :: 0 <= q < |m| && q != excl ==> Known(m'[q]) == Known(m[q])
    requires forall q :: q != excl ==> (q in ListedSet(ss', n') <==> q in ListedSet(ss, n))
    requires Known(m'[excl]) ==> excl in ListedSet(ss', n')
    ensures Complete(m', ss', n', -1) <==> Complete(m, ss, n, excl)
  {
    assert forall q :: q in ListedSet(ss', n') <==> Listed(ss', n', q);
    assert forall q :: q in ListedSet(ss, n) <==> Listed(ss, n, q);
  }

  lemma TakeUpdateComplete(
    m: seq<AddrEnt>, ss: seq<byte>, n: nat, m': seq<AddrEnt>, ss': seq<byte>, n': nat,
    c: Code, short: u16, lock: bool, ret: Ret, ref: nat)
    requires Sound(m, ss, n, -1) && UniqueIeee(m) && Complete(m, ss, n, -1) && |m'| == TABLE_SIZE && n' <= |ss'|
    requires Updated(m, ss, n, m', ListedSet(ss', n'), c, short, lock, ret, ref)
    requires PlanFor(m, ss, n, c, short).Take?
    ensures Complete(m', ss', n', -1) <==> UpdateSafe(m, ss, n, c, short)
  {
    var r := PlanFor(m, ss, n, c, short).ref;
    assert m[r].used by { TakeFree(m, ss, n, c, short); }
    TakeComplete(m, ss, n, m', ss', n', r, short);
  }

  lemma ReplaceUpdateComplete(
    m: seq<AddrEnt>, ss: seq<byte>, n: nat, m': seq<AddrEnt>, ss': seq<byte>, n': nat,
    c: Code, short: u16, lock: bool, ret: Ret, ref: nat)
    requires Sound(m, ss, n, -1) && UniqueIeee(m) && Complete(m, ss, n, -1) && |m'| == TABLE_SIZE && n' <= |ss'|
    requires Updated(m, ss, n, m', ListedSet(ss', n'), c, short, lock, ret, ref)
    requires PlanFor(m, ss, n, c, short).Replace?
    ensures Complete(m', ss', n', -1) <==> UpdateSafe(m, ss, n, c, short)
  {
    var Replace(g, r) := PlanFor(m, ss, n, c, short);
    assert m[r].used by { ReplaceFree(m, ss, n, c, short); }
    ReplaceComplete(m, ss, n, m', ss', n', g, r, short);
  }

  /** An update keeps a complete index complete exactly under the guard. */
  lemma UpdateComplete(
    m: seq<AddrEnt>, ss: seq<byte>, n: nat, m': seq<AddrEnt>, ss': seq<byte>, n': nat,
    c: Code, short: u16, lock: bool, ret: Ret, ref: nat)
    requires Sound(m, ss, n, -1) && UniqueIeee(m) && Complete(m, ss, n, -1) && |m'| == TABLE_SIZE && n' <= |ss'|
    requires Updated(m, ss, n, m', ListedSet(ss', n'), c, short, lock, ret, ref)
    ensures Complete(m', ss', n', -1) <==> UpdateSafe(m, ss, n, c, short)
  {
    match PlanFor(m, ss, n, c, short) {
      case Take(_) => TakeUpdateComplete(m, ss, n, m', ss', n', c, short, lock, ret, ref);
      case Replace(_, _) => ReplaceUpdateComplete(m, ss, n, m', ss', n', c, short, lock, ret, ref);
      case _ => GrownComplete(m, ss, n, m', ss', n', if m' == m then None else Some(ref));
    }
  }

  /** The index of an unchanged table, or of one with a new entry that is listed if it has to be. */
  lemma GrownComplete(m: seq<AddrEnt>, ss: seq<byte>, n: nat, m': seq<AddrEnt>, ss': seq<byte>, n': nat, added: Option<nat>)
    requires Sound(m, ss, n, -1) && Complete(m, ss, n, -1) && |m'| == TABLE_SIZE && n' <= |ss'|
    requires forall q :: 0 <= q < TABLE_SIZE && added != Some(q) ==> SameButClock(m[q], m'[q])
    requires forall q :: 0 <= q < TABLE_SIZE && added == Some(q) && Known(m'[q]) ==> q in ListedSet(ss', n')
    requires ListedSet(ss, n) <= ListedSet(ss', n')
    ensures Complete(m', ss', n', -1)
  {
    forall q | 0 <= q < TABLE_SIZE && Known(m'[q]) ensures Listed(ss', n', q) {
      if added != Some(q) {
        assert SameButClock(m[q], m'[q]) && Known(m[q]);
        assert q in ListedSet(ss, n);
      }
      assert q in ListedSet(ss', n');
    }
  }

  /** An IEEE address made known with short address 1 and then updated with 0xffff spoils the table. */
  method SpoiledReachable(c: Code) returns (t: AddressTable)
    ensures !t.Good()
  {
    t := new AddressTable();
    var ref := FirstEntry(t, c, 1);
    var ret;
    ret, ref := Update(t, c, UNKNOWN_SHORT, false);
  }

  /** The first update of an empty table. */
  method FirstEntry(t: AddressTable, c: Code, short: u16) returns (ref: nat)
    requires t.Good() && t.Index() == {} && short != UNKNOWN_SHORT && forall r :: 0 <= r < TABLE_SIZE ==> !t.addrMap[r].used
    modifies t, t.addrMap, t.shortSorted
    ensures t.Good() && t.Index() == {ref} && ref < TABLE_SIZE
    ensures t.addrMap[ref].addr == short && t.addrMap[ref].used && t.addrMap[ref].dupClock == old(t.addrMap[ref].dupClock)
    ensures forall r :: 0 <= r < TABLE_SIZE && r != ref ==> SameButClock(old(t.addrMap[r]), t.addrMap[r])
    ensures IeeeLookup(t.addrMap[..], c) == Some(ref)
  {
    ghost var m, ss, n := t.addrMap[..], t.shortSorted[..], t.nSorted;
    IeeeLookupDecides(m, c);
    assert IndexFind(m, ss, n, short).None? by {
      if IndexFind(m, ss, n, short).Some? { FoundIsUsed(m, ss, n, short); assert false; }
    }
    assert !m[0].used && !Full(m);
    var ret;
    ret, ref := Update(t, c, short, false);
    ghost var m' := t.addrMap[..];
    assert forall r :: 0 <= r < TABLE_SIZE && r != ref ==> SameButClock(m[r], m'[r]);
    assert m'[ref].used && m'[ref].ieee == c;
    IeeeLookupDecides(m', c);
  }

  // ---------------------------------------------------------------- a lost entry

  /** At most as many entries are listed as there are known ones below `bound`. */
  lemma FewListed(m: seq<AddrEnt>, ss: seq<byte>, n: nat, bound: nat)
    requires Sound(m, ss, n, -1) && forall r :: r in ListedSet(ss, n) ==> r < bound
    ensures n <= bound
  {
    SoundNoRepeat(m, ss, n, -1);
    forall k | 0 <= k < n ensures ss[..n][k] < bound {
      assert ss[k] as int in ListedSet(ss, n);
    }
    PigeonHole(ss[..n], bound);
  }

  lemma TwoListed(m: seq<AddrEnt>, ss: seq<byte>, n: nat)
    requires Sound(m, ss, n, -1) && ListedSet(ss, n) == {0, 1} && m[0].addr == 1 && m[1].addr == 2
    ensures n == 2 && ss[0] == 0 && ss[1] == 1
  {
    FewListed(m, ss, n, 2);
    assert 0 in ListedSet(ss, n) && 1 in ListedSet(ss, n);
    var j :| 0 <= j < n && ss[j] == 0;
    var k :| 0 <= k < n && ss[k] == 1;
    assert m[ss[j]].addr < m[ss[k]].addr;
  }

  /** Sources 1 and 2 become known, one after the other, in a fresh table; the second is locked. */
  method TwoSources() returns (t: AddressTable)
    ensures fresh(t) && fresh(t.addrMap) && fresh(t.shortSorted) && t.Good() && t.IndexComplete()
    ensures t.nSorted == 2 && t.shortSorted[0] == 0 && t.shortSorted[1] == 1 && t.shortSorted[2] == 0
    ensures t.addrMap[0].addr == 1 && t.addrMap[0].lockCnt == 0 && t.addrMap[1].addr == 2 && t.addrMap[1].lockCnt == 1
    ensures forall r :: 0 <= r < TABLE_SIZE ==> t.addrMap[r].used == (r < 2)
    ensures t.addrMap[0].ieee == t.addrMap[1].ieee == ZERO_CODE
  {
    t := new AddressTable();
    FirstSource(t);
    SecondSource(t);
  }

  method FirstSource(t: AddressTable)
    requires t.Good() && t.Index() == {} && forall r :: 0 <= r < TABLE_SIZE ==> !t.addrMap[r].used && t.addrMap[r].lockCnt == 0
    requires t.IndexComplete() && forall k :: 0 <= k <= TABLE_SIZE ==> t.shortSorted[..][k] == 0
    modifies t, t.addrMap, t.shortSorted
    ensures t.Good() && t.IndexComplete() && t.Index() == {0} && t.shortSorted[2] == 0
    ensures t.addrMap[0].addr == 1 && t.addrMap[0].lockCnt == 0 && t.addrMap[0].ieee == ZERO_CODE
    ensures forall r :: 0 <= r < TABLE_SIZE ==> t.addrMap[r].used == (r < 1) && t.addrMap[r].lockCnt == 0
  {
    ghost var m, z := t.addrMap[..], t.shortSorted[..];
    assert !m[0].used && !Full(m);
    assert t.Lookup(1) == None by {
      if t.Lookup(1).Some? { FoundIsUsed(m, z, t.nSorted, 1); assert false; }
    }
    var ret, ref := ByShort(t, 1, true, false);
    ghost var m', ss, n := t.addrMap[..], t.shortSorted[..], t.nSorted;
    assert ref == 0;
    assert forall r :: 0 <= r < TABLE_SIZE && r != ref ==> SameButClock(m[r], m'[r]);
    FewListed(m', ss, n, 1);
    assert ss[2] == ss[n..][2 - n] == z[n..][2 - n] == 0;
  }

  method SecondSource(t: AddressTable)
    requires t.Good() && t.IndexComplete() && t.Index() == {0} && t.shortSorted[2] == 0
    requires t.addrMap[0].addr == 1 && t.addrMap[0].lockCnt == 0 && t.addrMap[0].ieee == ZERO_CODE
    requires forall r :: 0 <= r < TABLE_SIZE ==> t.addrMap[r].used == (r < 1) && t.addrMap[r].lockCnt == 0
    modifies t, t.addrMap, t.shortSorted
    ensures t.Good() && t.IndexComplete()
    ensures t.nSorted == 2 && t.shortSorted[0] == 0 && t.shortSorted[1] == 1 && t.shortSorted[2] == 0
    ensures t.addrMap[0].addr == 1 && t.addrMap[0].lockCnt == 0 && t.addrMap[1].addr == 2 && t.addrMap[1].lockCnt == 1
    ensures forall r :: 0 <= r < TABLE_SIZE ==> t.addrMap[r].used == (r < 2)
    ensures t.addrMap[0].ieee == t.addrMap[1].ieee == ZERO_CODE
  {
    ghost var m, z, n0 := t.addrMap[..], t.shortSorted[..], t.nSorted;
    assert m[0].used && !m[1].used && !Full(m);
    assert t.Lookup(2) == None by {
      if t.Lookup(2).Some? { FoundIsUsed(m, z, n0, 2); assert false; }
    }
    var ret, ref := ByShort(t, 2, true, true);
    ghost var m', ss, n := t.addrMap[..], t.shortSorted[..], t.nSorted;
    assert ref == 1;
    assert forall r :: 0 <= r < TABLE_SIZE && r != ref ==> SameButClock(m[r], m'[r]);
    TwoListed(m', ss, n);
    assert ss[2] == ss[n..][0] == z[n..][0] == 0;
  }

  /** From a complete index: source 1 gets an IEEE address, which then moves to short address 2. The update
      succeeds with entry 1, and short address 2 is not found any more. */
  method UnlistedReachable(c: Code) returns (t: AddressTable, ret: Ret, ref: nat)
    requires c != ZERO_CODE
    ensures ret == RetOk && ref == 1 && t.Good() && t.addrMap[1].used && t.addrMap[1].addr == 2 && t.Lookup(2) == None
  {
    t := TwoSources();
    NameFirst(t, c);
    ret, ref := MoveAway(t, c);
  }

  /** The update that moves it. */
  method MoveAway(t: AddressTable, c: Code) returns (ret: Ret, ref: nat)
    requires t.Good() && t.nSorted == 2 && t.shortSorted[0] == 0 && t.shortSorted[1] == 1 && t.shortSorted[2] == 0
    requires t.addrMap[0].addr == 1 && t.addrMap[0].lockCnt == 0 && t.addrMap[1].addr == 2 && t.addrMap[1].lockCnt == 1
    requires t.addrMap[1].used && IeeeLookup(t.addrMap[..], c) == Some(0)
    modifies t, t.addrMap, t.shortSorted
    ensures ret == RetOk && ref == 1 && t.Good() && t.addrMap[1].used && t.addrMap[1].addr == 2 && t.Lookup(2) == None
  {
    ghost var m, ss, n := t.addrMap[..], t.shortSorted[..], t.nSorted;
    assert ss[0] == 0 && ss[1] == 1 && ss[2] == 0;
    assert PlanFor(m, ss, n, c, 2) == Replace(0, 1) by {
      assert Listed(ss, n, 1);
      FindIs(m, ss, n, 2, 1);
    }
    assert AfterDel(ss, n, 0) == {} by {
      assert Find(ss, 1, 0) == 0 && Loses(ss, n, 0);
      DelIndexSet(m, ss, n, 0);
    }
    ret, ref := Update(t, c, 2, false);
    FoundListed(t.addrMap[..], t.shortSorted[..], t.nSorted, 2);
  }

  lemma FoundListed(m: seq<AddrEnt>, ss: seq<byte>, n: nat, short: u16)
    requires n <= |ss|
    ensures IndexFind(m, ss, n, short).Some? ==> IndexFind(m, ss, n, short).value in ListedSet(ss, n)
  {
  }

  /** One deletion is enough to lose the other entry. */
  method LossReachable() returns (t: AddressTable)
    ensures t.Good() && t.addrMap[1].used && t.addrMap[1].addr == 2 && t.Lookup(2) == None
  {
    t := TwoSources();
    ghost var m, ss, n := t.addrMap[..], t.shortSorted[..], t.nSorted;
    assert ss[0] == 0 && ss[1] == 1 && ss[2] == 0;
    assert AfterDel(ss, n, 0) == {} by {
      assert Find(ss, 1, 0) == 0 && Loses(ss, n, 0);
      DelIndexSet(m, ss, n, 0);
    }
    t.Delete(0);
    FoundListed(t.addrMap[..], t.shortSorted[..], t.nSorted, 2);
  }

  /** The IEEE address of source 1 becomes known, by an update that locks nothing; nothing moves in the index. */
  method NameFirst(t: AddressTable, c: Code)
    requires c != ZERO_CODE && t.Good() && t.IndexComplete()
    requires t.nSorted == 2 && t.shortSorted[0] == 0 && t.shortSorted[1] == 1 && t.shortSorted[2] == 0
    requires t.addrMap[0].addr == 1 && t.addrMap[0].lockCnt == 0 && t.addrMap[1].addr == 2 && t.addrMap[1].lockCnt == 1
    requires forall r :: 0 <= r < TABLE_SIZE ==> t.addrMap[r].used == (r < 2)
    requires t.addrMap[0].ieee == t.addrMap[1].ieee == ZERO_CODE
    modifies t, t.addrMap, t.shortSorted
    ensures t.Good() && t.nSorted == 2 && t.shortSorted[0] == 0 && t.shortSorted[1] == 1 && t.shortSorted[2] == 0
    ensures t.addrMap[0].addr == 1 && t.addrMap[0].lockCnt == 0 && t.addrMap[1].addr == 2 && t.addrMap[1].lockCnt == 1
    ensures t.addrMap[1].used && IeeeLookup(t.addrMap[..], c) == Some(0)
  {
    ghost var m, ss, n := t.addrMap[..], t.shortSorted[..], t.nSorted;
    IeeeLookupDecides(m, c);
    assert ss[0] == 0 && Listed(ss, n, 0);
    FindIs(m, ss, n, 1, 0);
    assert PlanFor(m, ss, n, c, 1) == Take(0);
    var ret, ref := Reconcile(t, c, 1);
    ghost var m' := t.addrMap[..];
    assert t.shortSorted[..] == ss;
    assert m'[0].ieee == c && m'[1] == m[1];
    IeeeLookupDecides(m', c);
  }
}
