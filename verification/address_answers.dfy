/** What the lookups and the update of common/zb_address.c answer, said of the table before and after them
    alone: which entry is used, which one is deleted, and what becomes of their fields. */
module AddressAnswers {
  import opened Types
  import opened AddressIndex
  import opened AddressTables
  import opened AddressOps

  /** A used entry with these addresses; locked once more if asked, with its clock bit set and its duplicate
      data as they were. */
  ghost predicate Holds(e: AddrEnt, e': AddrEnt, code: Code, short: u16, locked: bool) {
    && e'.used && e'.ieee == code && e'.addr == short && e'.clock
    && e'.lockCnt == e.lockCnt + (if locked then 1 else 0)
    && e'.dupCounter == e.dupCounter && e'.dupClock == e.dupClock
  }

  // ---------------------------------------------------------------- lookups

  /** A lookup fails in three ways, and changes nothing in the first two. */
  lemma LookupFails(
    m: seq<AddrEnt>, ix: set<int>, m': seq<AddrEnt>, ix': set<int>,
    s: Option<nat>, code: Option<Code>, short: u16, create: bool, lock: bool, ret: Ret, ref: nat)
    requires |m| == |m'| == TABLE_SIZE && (s.Some? ==> s.value < TABLE_SIZE)
    requires LookedUp(m, ix, m', ix', s, code, short, create, lock, ret, ref)
    ensures ret == RetNotFound <==> s == None && !create
    ensures ret == RetOverflow <==> s == None && create && forall r :: 0 <= r < TABLE_SIZE ==> m[r].used
    ensures ret == RetNotFound || ret == RetOverflow ==> m' == m && ix' == ix
    ensures ret == RetLockOverflow ==> ref < TABLE_SIZE && lock && m[ref].lockCnt >= 15
    ensures ret == RetOk && lock ==> ref < TABLE_SIZE && m[ref].lockCnt < 15
    ensures ret != RetConflict
  {
  }

  /** A lookup that finds an entry answers it, locks it if asked, and touches no other. */
  lemma LookupTouches(
    m: seq<AddrEnt>, ix: set<int>, m': seq<AddrEnt>, ix': set<int>,
    s: nat, code: Option<Code>, short: u16, create: bool, lock: bool, ret: Ret, ref: nat)
    requires |m| == |m'| == TABLE_SIZE && s < TABLE_SIZE && m[s].used
    requires LookedUp(m, ix, m', ix', Some(s), code, short, create, lock, ret, ref)
    ensures ref == s && ix' == ix && forall r :: 0 <= r < TABLE_SIZE && r != s ==> m'[r] == m[r]
    ensures Holds(m[s], m'[s], m[s].ieee, m[s].addr, lock && ret == RetOk)
  {
  }

  /** A lookup that creates takes the first unused entry, counted cyclically from the address's home, for the
      addresses given, and lists it if the short address is one. */
  lemma LookupCreates(
    m: seq<AddrEnt>, ix: set<int>, m': seq<AddrEnt>, ix': set<int>,
    code: Option<Code>, short: u16, lock: bool, ret: Ret, ref: nat)
    requires |m| == |m'| == TABLE_SIZE && exists r :: 0 <= r < TABLE_SIZE && !m[r].used
    requires LookedUp(m, ix, m', ix', None, code, short, true, lock, ret, ref)
    ensures ref < TABLE_SIZE && !m[ref].used
    ensures Holds(m[ref], m'[ref], if code.Some? then code.value else Code(0, 0, 0, 0, 0, 0), short, lock && ret == RetOk)
    ensures forall r :: 0 <= r < TABLE_SIZE && r != ref ==> m'[r] == m[r].(clock := m'[r].clock)
    ensures ix' == if short != 0xffff then ix + {ref} else ix
    ensures var h := if code.Some? then Hash(code.value) else 0;
            forall j {:trigger After(h, j)} :: 0 <= j < (ref - h) % 101 ==> After(h, j) == (h + j) % 101 && m[After(h, j)].used
  {
    assert forall r :: 0 <= r < TABLE_SIZE && r != ref ==> SameButClock(m[r], m'[r]);
  }

  /** From then on the address is found, and every other short address is found as before. */
  lemma CreatedIsFound(
    m: seq<AddrEnt>, ss: seq<byte>, n: nat, m': seq<AddrEnt>, ss': seq<byte>, n': nat,
    short: u16, lock: bool, ret: Ret, ref: nat, other: u16)
    requires Sound(m, ss, n, -1) && Sound(m', ss', n', -1) && exists r :: 0 <= r < TABLE_SIZE && !m[r].used
    requires short != 0xffff && IndexFind(m, ss, n, short) == None
    requires LookedUp(m, ListedSet(ss, n), m', ListedSet(ss', n'), None, None, short, true, lock, ret, ref)
    ensures IndexFind(m', ss', n', short) == Some(ref)
    ensures other != short ==> IndexFind(m', ss', n', other) == IndexFind(m, ss, n, other)
  {
    ListedIsFound(m', ss', n', ref, short);
    if other != short { SameFound(m, ss, n, m', ss', n', ref, other); }
  }

  /** Only the entry `ref` has changed its address or is listed in addition. */
  lemma SameFound(
    m: seq<AddrEnt>, ss: seq<byte>, n: nat, m': seq<AddrEnt>, ss': seq<byte>, n': nat, ref: nat, other: u16)
    requires Sound(m, ss, n, -1) && Sound(m', ss', n', -1) && ref < TABLE_SIZE
    requires m'[ref].addr != other && !m[ref].used && ListedSet(ss', n') == ListedSet(ss, n) + {ref}
    requires forall r :: 0 <= r < TABLE_SIZE && r != ref ==> SameButClock(m[r], m'[r])
    ensures IndexFind(m', ss', n', other) == IndexFind(m, ss, n, other)
  {
    var f, f' := IndexFind(m, ss, n, other), IndexFind(m', ss', n', other);
    if f.Some? {
      FoundIsUsed(m, ss, n, other);
      FoundListed(m, ss, n, other);
      assert SameButClock(m[f.value], m'[f.value]);
      ListedIsFound(m', ss', n', f.value, other);
    } else if f'.Some? {
      FoundListed(m', ss', n', other);
      assert SameButClock(m[f'.value], m'[f'.value]);
      ListedIsFound(m, ss, n, f'.value, other);
    }
  }

  // ---------------------------------------------------------------- the update

  /** The entry that has the short address and the one that has the code, found and different. */
  ghost predicate Disagree(m: seq<AddrEnt>, ss: seq<byte>, n: nat, c: Code, short: u16, s: nat, l: nat)
    requires |m| == TABLE_SIZE && n <= |ss|
  {
    IndexFind(m, ss, n, short) == Some(s) && IeeeLookup(m, c) == Some(l) && s != l
  }

  /** When an update fails: the two entries found differ and both are locked; none is found and the table
      is full; or the lock asked for does not fit. Only the last leaves a trace. */
  lemma UpdateFails(
    m: seq<AddrEnt>, ss: seq<byte>, n: nat, m': seq<AddrEnt>, ix': set<int>,
    c: Code, short: u16, lock: bool, ret: Ret, ref: nat)
    requires Sound(m, ss, n, -1) && UniqueIeee(m) && |m'| == TABLE_SIZE
    requires Updated(m, ss, n, m', ix', c, short, lock, ret, ref)
    ensures ret == RetConflict
            <==> exists s: nat, l: nat :: Disagree(m, ss, n, c, short, s, l) && m[s].lockCnt > 0 && m[l].lockCnt > 0
    ensures ret == RetOverflow
            <==> IndexFind(m, ss, n, short) == None && IeeeLookup(m, c) == None && forall r :: 0 <= r < TABLE_SIZE ==> m[r].used
    ensures ret == RetConflict || ret == RetOverflow ==> m' == m && ix' == ListedSet(ss, n)
    ensures ret == RetLockOverflow ==> ref < TABLE_SIZE && lock && m[ref].lockCnt >= 15
    ensures ret == RetOk && lock ==> ref < TABLE_SIZE && m[ref].lockCnt < 15
    ensures ret != RetNotFound
  {
    var s, l := IndexFind(m, ss, n, short), IeeeLookup(m, c);
    if s.Some? && l.Some? && s != l { assert Disagree(m, ss, n, c, short, s.value, l.value); }
  }

  /** The entry found by short address is not locked: it is deleted, and the one with the code survives. */
  lemma ShortGivesWay(
    m: seq<AddrEnt>, ss: seq<byte>, n: nat, m': seq<AddrEnt>, ix': set<int>,
    c: Code, short: u16, lock: bool, ret: Ret, ref: nat, s: nat, l: nat)
    requires Sound(m, ss, n, -1) && UniqueIeee(m) && |m'| == TABLE_SIZE
    requires Updated(m, ss, n, m', ix', c, short, lock, ret, ref)
    requires Disagree(m, ss, n, c, short, s, l) && m[s].lockCnt == 0
    ensures ref == l && Holds(m[l], m'[l], c, short, lock && ret == RetOk)
    ensures m'[s] == m[s].(used := false) && forall r :: 0 <= r < TABLE_SIZE && r != s && r != l ==> m'[r] == m[r]
    ensures s !in ix' && (m[l].addr != short ==> l in ix')
  {
    ReplaceFree(m, ss, n, c, short);
    GoneUnlisted(m, ss, n, s, l, short);
  }

  /** It is locked and the one with the code is not: that one is deleted. */
  lemma CodeGivesWay(
    m: seq<AddrEnt>, ss: seq<byte>, n: nat, m': seq<AddrEnt>, ix': set<int>,
    c: Code, short: u16, lock: bool, ret: Ret, ref: nat, s: nat, l: nat)
    requires Sound(m, ss, n, -1) && UniqueIeee(m) && |m'| == TABLE_SIZE
    requires Updated(m, ss, n, m', ix', c, short, lock, ret, ref)
    requires Disagree(m, ss, n, c, short, s, l) && m[s].lockCnt > 0 && m[l].lockCnt == 0
    ensures ref == s && Holds(m[s], m'[s], c, short, lock && ret == RetOk)
    ensures m'[l] == m[l].(used := false) && forall r :: 0 <= r < TABLE_SIZE && r != s && r != l ==> m'[r] == m[r]
    ensures l !in ix'
  {
    ReplaceFree(m, ss, n, c, short);
    GoneUnlisted(m, ss, n, l, s, short);
  }

  /** A deleted entry is not listed, and the survivor is if its short address is new to it. */
  lemma GoneUnlisted(m: seq<AddrEnt>, ss: seq<byte>, n: nat, g: nat, r: nat, short: u16)
    requires Sound(m, ss, n, -1) && g < TABLE_SIZE && r < TABLE_SIZE && g != r
    ensures var ix' := Relisted(m, DelIndex(ss, n, g).0, DelIndex(ss, n, g).1, r, short);
            g !in ix' && (m[r].addr != short ==> r in ix')
  {
    var (ss1, n1) := DelIndex(ss, n, g);
    DelIndexSet(m, ss, n, g);
    DelIndexSound(m, ss, n, g);
    if m[r].addr != short { StillUnlisted(m, ss1, n1, r, g); }
  }

  lemma StillUnlisted(m: seq<AddrEnt>, ss: seq<byte>, n: nat, ref: byte, g: nat)
    requires Sound(m, ss, n, g) && g !in ListedSet(ss, n)
    ensures g !in AfterDel(ss, n, ref)
  {
    if g in AfterDel(ss, n, ref) {
      var (ss', n') := DelIndex(ss, n, ref);
      var k :| 0 <= k < n' && ss'[k] as int == g;
      DelIndexAt(ss, n, ref, k);
      assert false;
    }
  }

  /** One entry is found, by either address or by both: it takes both, and no other entry changes. */
  lemma OneFound(
    m: seq<AddrEnt>, ss: seq<byte>, n: nat, m': seq<AddrEnt>, ix': set<int>,
    c: Code, short: u16, lock: bool, ret: Ret, ref: nat, r: nat)
    requires Sound(m, ss, n, -1) && UniqueIeee(m) && |m'| == TABLE_SIZE
    requires Updated(m, ss, n, m', ix', c, short, lock, ret, ref)
    requires {IndexFind(m, ss, n, short), IeeeLookup(m, c)} - {None} == {Some(r)}
    ensures ref == r < TABLE_SIZE && Holds(m[r], m'[r], c, short, lock && ret == RetOk)
    ensures forall q :: 0 <= q < TABLE_SIZE && q != r ==> m'[q] == m[q]
    ensures if m[r].addr == short then ix' == ListedSet(ss, n) else r in ix'
  {
    var s, l := IndexFind(m, ss, n, short), IeeeLookup(m, c);
    var both := {s, l} - {None};
    assert s.Some? ==> s in both;
    assert l.Some? ==> l in both;
    assert Some(r) in both;
    TakeFree(m, ss, n, c, short);
  }

  /** No entry is found: an unused one is filled, as by a lookup that creates. */
  lemma NoneFound(
    m: seq<AddrEnt>, ss: seq<byte>, n: nat, m': seq<AddrEnt>, ix': set<int>,
    c: Code, short: u16, lock: bool, ret: Ret, ref: nat)
    requires Sound(m, ss, n, -1) && UniqueIeee(m) && |m'| == TABLE_SIZE
    requires Updated(m, ss, n, m', ix', c, short, lock, ret, ref)
    requires IndexFind(m, ss, n, short) == None && IeeeLookup(m, c) == None && exists r :: 0 <= r < TABLE_SIZE && !m[r].used
    ensures ref < TABLE_SIZE && !m[ref].used && Holds(m[ref], m'[ref], c, short, lock && ret == RetOk)
    ensures forall r :: 0 <= r < TABLE_SIZE && r != ref ==> m'[r] == m[r].(clock := m'[r].clock)
    ensures ix' == if short != 0xffff then ListedSet(ss, n) + {ref} else ListedSet(ss, n)
  {
    LookupCreates(m, ListedSet(ss, n), m', ix', Some(c), short, lock, ret, ref);
  }
}
