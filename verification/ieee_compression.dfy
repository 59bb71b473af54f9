/** IEEE address compression (common/zb_address.c): the three manufacturer octets are replaced by a
    reference into a table that only grows. */
module IeeeCompression {
  import opened Types
  import opened AddressIndex
  import opened AddressTables
  import opened AddressOps

  const MANUFACTURER_TABLE_SIZE: nat := 16

  datatype Manufacturer = Manufacturer(b0: byte, b1: byte, b2: byte)

  /** A 64-bit address as its manufacturer and device parts. */
  datatype Ieee = Ieee(manufacturer: Manufacturer, id0: byte, id1: byte, id2: byte, id3: byte, id4: byte)

  /** What a code stands for under a manufacturer table (`ZB_ADDRESS_DECOMPRESS`). */
  function Decompress(man: seq<Manufacturer>, c: Code): Ieee
    requires c.manufacturer < |man|
  {
    Ieee(man[c.manufacturer], c.id0, c.id1, c.id2, c.id3, c.id4)
  }

  class Compressor {
    const used: array<bool>
    const man: array<Manufacturer>
    /** Every code handed out so far, with the address it was made from. */
    ghost var issued: set<(Code, Ieee)>

    /** The manufacturers in use are distinct, and every code ever produced still stands for the
        address it was made from. */
    ghost predicate Valid()
      reads this, used, man
    {
      && used.Length == man.Length == MANUFACTURER_TABLE_SIZE && used as object != man as object
      && (forall i, j :: 0 <= i < j < MANUFACTURER_TABLE_SIZE && used[i] && used[j] ==> man[i] != man[j])
      && (forall p :: p in issued ==>
            p.0.manufacturer < MANUFACTURER_TABLE_SIZE && used[p.0.manufacturer] && Decompress(man[..], p.0) == p.1)
    }

    constructor ()
      ensures Valid() && issued == {} && fresh(used) && fresh(man)
      ensures forall k :: 0 <= k < MANUFACTURER_TABLE_SIZE ==> !used[k]
    {
      used := new bool[MANUFACTURER_TABLE_SIZE](_ => false);
      man := new Manufacturer[MANUFACTURER_TABLE_SIZE](_ => Manufacturer(0, 0, 0));
      issued := {};
    }

    /** The search of `zb_ieee_addr_compress`: the manufacturer's slot, or the last free slot seen. */
    method FindSlot(m: Manufacturer) returns (i: nat)
      requires Valid()
      ensures i <= MANUFACTURER_TABLE_SIZE
      ensures i < MANUFACTURER_TABLE_SIZE && used[i] ==> man[i] == m
      ensures i < MANUFACTURER_TABLE_SIZE && !used[i] ==>
                (forall k :: 0 <= k < MANUFACTURER_TABLE_SIZE && used[k] ==> man[k] != m)
                && forall k :: i < k < MANUFACTURER_TABLE_SIZE ==> used[k]
      ensures i == MANUFACTURER_TABLE_SIZE ==>
                forall k :: 0 <= k < MANUFACTURER_TABLE_SIZE ==> used[k] && man[k] != m
    {
      i := 0;
      var free: nat := MANUFACTURER_TABLE_SIZE;
      while i < MANUFACTURER_TABLE_SIZE
        invariant i <= MANUFACTURER_TABLE_SIZE
        invariant forall k :: 0 <= k < i && used[k] ==> man[k] != m
        invariant free < MANUFACTURER_TABLE_SIZE ==> !used[free] && forall k :: free < k < i ==> used[k]
        invariant free <= MANUFACTURER_TABLE_SIZE
        invariant free == MANUFACTURER_TABLE_SIZE ==> forall k :: 0 <= k < i ==> used[k]
      {
        if used[i] {
          if man[i] == m {
            return;
          }
        } else {
          free := i;
        }
        i := i + 1;
      }
      i := free;
    }

    /** `zb_ieee_addr_compress`. It fails exactly when the manufacturer is new and the table full;
        the source then stops at an assertion. A new manufacturer takes the last free slot. The code
        decompresses to the address, and so does every code issued before. */
    method Compress(a: Ieee) returns (ok: bool, c: Code)
      requires Valid()
      modifies this, used, man
      ensures Valid()
      ensures !ok <==> forall k :: 0 <= k < MANUFACTURER_TABLE_SIZE ==> old(used[k]) && old(man[k]) != a.manufacturer
      ensures !ok ==> issued == old(issued)
      ensures ok ==> issued == old(issued) + {(c, a)} && c.manufacturer < MANUFACTURER_TABLE_SIZE
                     && c == Code(c.manufacturer, a.id0, a.id1, a.id2, a.id3, a.id4)
      ensures ok && !old(used[..])[c.manufacturer] ==>
                forall k :: c.manufacturer < k < MANUFACTURER_TABLE_SIZE ==> old(used[k])
      ensures ok ==> used[..] == old(used[..])[c.manufacturer := true] && man[..] == old(man[..])[c.manufacturer := a.manufacturer]
      ensures ok && old(used[..])[c.manufacturer] ==> old(man[..])[c.manufacturer] == a.manufacturer
    {
      var i := FindSlot(a.manufacturer);
      ok := i != MANUFACTURER_TABLE_SIZE;
      c := ZERO_CODE;
      if ok {
        used[i] := true;
        man[i] := a.manufacturer;
        c := Code(i, a.id0, a.id1, a.id2, a.id3, a.id4);
        issued := issued + {(c, a)};
      }
    }

    /** Codes are an injection: two issued codes are equal exactly when their addresses are. */
    lemma CodesInjective(p: (Code, Ieee), q: (Code, Ieee))
      requires Valid() && p in issued && q in issued
      ensures p.0 == q.0 <==> p.1 == q.1
    {
    }

    /** Fifteen manufacturers leave slot 0 free. */
    method FillSlots()
      requires Valid() && forall k :: 0 <= k < MANUFACTURER_TABLE_SIZE ==> !used[k]
      modifies this, used, man
      ensures Valid() && forall k :: 0 <= k < MANUFACTURER_TABLE_SIZE ==> used[k] == (k > 0)
      ensures forall k :: 0 < k < MANUFACTURER_TABLE_SIZE ==> man[k] == Manufacturer(16 - k, 0, 0)
    {
      for j := 0 to MANUFACTURER_TABLE_SIZE - 1
        invariant Valid()
        invariant forall k :: 0 <= k < MANUFACTURER_TABLE_SIZE ==> used[k] == (k >= 16 - j)
        invariant forall k :: 16 - j <= k < MANUFACTURER_TABLE_SIZE ==> man[k] == Manufacturer(16 - k, 0, 0)
      {
        assert !used[0] && !used[15 - j];
        var ok, c := Compress(Ieee(Manufacturer(j + 1, 0, 0), 1, 0, 0, 0, 0));
        assert c.manufacturer == 15 - j;
      }
    }
  }

  // ---------------------------------------------------------------- entries and addresses

  /** `owner[r]` is the IEEE address entry `r` was given, if any. An entry without one carries the code
      zero, the others a code issued for their address. */
  ghost predicate Owned(m: seq<AddrEnt>, owner: seq<Option<Ieee>>, issued: set<(Code, Ieee)>) {
    && |m| == |owner| == TABLE_SIZE
    && forall r :: 0 <= r < TABLE_SIZE && m[r].used ==>
         if owner[r].None? then m[r].ieee == ZERO_CODE else (m[r].ieee, owner[r].value) in issued
  }

  /** Some used entry was given the address. */
  ghost predicate Member(m: seq<AddrEnt>, owner: seq<Option<Ieee>>, a: Ieee) {
    exists r :: 0 <= r < |m| && r < |owner| && m[r].used && owner[r] == Some(a)
  }

  /** Some used entry was given no IEEE address. */
  ghost predicate ShortOnly(m: seq<AddrEnt>, owner: seq<Option<Ieee>>) {
    exists r :: 0 <= r < |m| && r < |owner| && m[r].used && owner[r].None?
  }

  /** Entry `r` is in use for a device that has neither this short nor this IEEE address. */
  ghost predicate Foreign(m: seq<AddrEnt>, owner: seq<Option<Ieee>>, a: Ieee, short: u16, r: nat) {
    r < |m| && r < |owner| && m[r].used && m[r].addr != short && owner[r] != Some(a)
  }

  /** Entry `r` is in use without an IEEE address, under another short address than `short`. */
  ghost predicate Nameless(m: seq<AddrEnt>, owner: seq<Option<Ieee>>, short: u16, r: nat) {
    r < |m| && r < |owner| && m[r].used && m[r].addr != short && owner[r].None?
  }

  /** The address table together with its compressor. */
  class AddressBook {
    const comp: Compressor
    const t: AddressTable
    ghost var owner: seq<Option<Ieee>>

    ghost predicate Valid()
      reads this, comp, comp.used, comp.man, t, t.addrMap, t.shortSorted
    {
      comp.Valid() && t.Good() && Owned(t.addrMap[..], owner, comp.issued)
    }

    constructor ()
      ensures Valid() && !ShortOnly(t.addrMap[..], owner) && forall a :: !Member(t.addrMap[..], owner, a)
      ensures forall k :: 0 <= k < MANUFACTURER_TABLE_SIZE ==> !comp.used[k]
      ensures forall r :: 0 <= r < TABLE_SIZE ==> !t.addrMap[r].used
      ensures fresh(comp) && fresh(comp.used) && fresh(comp.man) && fresh(t) && fresh(t.addrMap) && fresh(t.shortSorted)
    {
      comp := new Compressor();
      t := new AddressTable();
      owner := seq(TABLE_SIZE, _ => None);
    }

    /** The probe for an address's code finds an entry exactly if one was given the address, unless the
        code is zero and, with no such entry in the table, there is one that was given no address. */
    lemma LookupDecidesAddress(c: Code, a: Ieee)
      requires Valid() && (c, a) in comp.issued
      ensures var m := t.addrMap[..];
              (IeeeLookup(m, c).Some? <==> Member(m, owner, a))
              <==> c != ZERO_CODE || Member(m, owner, a) || !ShortOnly(m, owner)
    {
      var m := t.addrMap[..];
      IeeeLookupDecides(m, c);
      forall r | 0 <= r < TABLE_SIZE && m[r].used && owner[r].Some? ensures m[r].ieee == c <==> owner[r] == Some(a) {
        comp.CodesInjective((c, a), (m[r].ieee, owner[r].value));
      }
    }

    /** `zb_address_by_short`. */
    method ByShortAddress(short: u16, create: bool, lock: bool) returns (ret: Ret, ref: nat)
      requires Valid()
      modifies this, t, t.addrMap, t.shortSorted
      ensures Valid()
      ensures old(t.Lookup(short)).None? && create && !Full(old(t.addrMap[..])) ==>
                ref < TABLE_SIZE && !old(t.addrMap[..])[ref].used && t.addrMap[ref].used && owner == old(owner)[ref := None]
      ensures old(t.Lookup(short)).Some? || !create || Full(old(t.addrMap[..])) ==> owner == old(owner)
    {
      ghost var m, ix, s := t.addrMap[..], t.Index(), t.Lookup(short);
      ret, ref := ByShort(t, short, create, lock);
      OwnedLookedUp(m, ix, t.addrMap[..], t.Index(), owner, comp.issued, s, None, short, create, lock, ret, ref, None);
      if s.None? && create && !Full(m) { owner := owner[ref := None]; }
    }

    /** `zb_address_by_ieee`, compression included; without `ok` it stopped for want of a manufacturer
        slot. Without `create`, it finds an entry exactly if one was given the address, or the code is
        zero and one was given none. */
    method ByIeeeAddress(a: Ieee, create: bool, lock: bool) returns (ok: bool, ret: Ret, ref: nat, ghost c: Code)
      requires Valid()
      modifies this, comp, comp.used, comp.man, t, t.addrMap, t.shortSorted
      ensures Valid() && (ok ==> (c, a) in comp.issued)
      ensures ok && !create ==>
                (ret != RetNotFound <==>
                   Member(old(t.addrMap[..]), old(owner), a) || (c == ZERO_CODE && ShortOnly(old(t.addrMap[..]), old(owner))))
    {
      ret, ref := RetNotFound, 0;
      var code;
      ok, code := Encode(a);
      c := code;
      if ok {
        ret, ref := ByCode(a, code, create, lock);
      }
    }

    /** Compression within the book. */
    method Encode(a: Ieee) returns (ok: bool, c: Code)
      requires Valid()
      modifies comp, comp.used, comp.man
      ensures Valid() && (ok ==> (c, a) in comp.issued)
    {
      ok, c := comp.Compress(a);
    }

    method ByCode(a: Ieee, c: Code, create: bool, lock: bool) returns (ret: Ret, ref: nat)
      requires Valid() && (c, a) in comp.issued
      modifies this, t, t.addrMap, t.shortSorted
      ensures Valid()
      ensures !create ==>
                (ret != RetNotFound <==>
                   Member(old(t.addrMap[..]), old(owner), a) || (c == ZERO_CODE && ShortOnly(old(t.addrMap[..]), old(owner))))
    {
      ghost var m, ix := t.addrMap[..], t.Index();
      LookupDecidesAddress(c, a);
      DecidedByMember(m, owner, c, a);
      ret, ref := ByIeee(t, c, create, lock);
      OwnedLookedUp(m, ix, t.addrMap[..], t.Index(), owner, comp.issued, IeeeLookup(m, c), Some(c), UNKNOWN_SHORT, create, lock, ret, ref, Some(a));
      if IeeeLookup(m, c).None? && create && !Full(m) { owner := owner[ref := Some(a)]; }
    }

    /** With the code zero and an entry without address, the probe always finds something. */
    lemma DecidedByMember(m: seq<AddrEnt>, own: seq<Option<Ieee>>, c: Code, a: Ieee)
      requires Owned(m, own, comp.issued)
      ensures c == ZERO_CODE && ShortOnly(m, own) ==> IeeeLookup(m, c).Some?
    {
      IeeeLookupDecides(m, c);
    }

    /** The entry an update would take belongs to another device exactly if the code is zero and the entry
        has no IEEE address. */
    lemma TakesForeign(c: Code, a: Ieee, short: u16)
      requires Valid() && (c, a) in comp.issued
      ensures var m := t.addrMap[..];
              var p := PlanFor(m, t.shortSorted[..], t.nSorted, c, short);
              p.Take? || p.Replace? ==>
                (Foreign(m, owner, a, short, p.ref) <==> c == ZERO_CODE && Nameless(m, owner, short, p.ref))
    {
      var m := t.addrMap[..];
      forall r | 0 <= r < TABLE_SIZE && m[r].used && owner[r].Some? ensures m[r].ieee == c <==> owner[r] == Some(a) {
        comp.CodesInjective((c, a), (m[r].ieee, owner[r].value));
      }
    }

    /** `zb_address_update`, compression included. The entry it takes is new, or has the IEEE or the short
        address already, exactly unless the code is zero and the entry is one without IEEE address. */
    method UpdateAddress(a: Ieee, short: u16, lock: bool) returns (ok: bool, ret: Ret, ref: nat, ghost c: Code)
      requires Valid()
      modifies this, comp, comp.used, comp.man, t, t.addrMap, t.shortSorted
      ensures ok ==> (c, a) in comp.issued && (Valid() <==> !Spoils(old(t.addrMap[..]), c, short))
      ensures !ok ==> Valid()
      ensures ok && ret == RetOk ==> Member(t.addrMap[..], owner, a)
      ensures ok && ret == RetOk ==>
                (Foreign(old(t.addrMap[..]), old(owner), a, short, ref) <==>
                   c == ZERO_CODE && Nameless(old(t.addrMap[..]), old(owner), short, ref))
    {
      ret, ref := RetNotFound, 0;
      var code;
      ok, code := Encode(a);
      c := code;
      if ok {
        ret, ref := UpdateCode(a, code, short, lock);
      }
    }

    method UpdateCode(a: Ieee, c: Code, short: u16, lock: bool) returns (ret: Ret, ref: nat)
      requires Valid() && (c, a) in comp.issued
      modifies this, t, t.addrMap, t.shortSorted
      ensures !Spoils(old(t.addrMap[..]), c, short) ==> Valid()
      ensures Spoils(old(t.addrMap[..]), c, short) ==> !Valid()
      ensures ret == RetOk ==> Member(t.addrMap[..], owner, a)
      ensures ret == RetOk ==>
                (Foreign(old(t.addrMap[..]), old(owner), a, short, ref) <==>
                   c == ZERO_CODE && Nameless(old(t.addrMap[..]), old(owner), short, ref))
    {
      TakesForeign(c, a, short);
      ghost var m, ss, n := t.addrMap[..], t.shortSorted[..], t.nSorted;
      ret, ref := Update(t, c, short, lock);
      ghost var m' := t.addrMap[..];
      ghost var own := if ret == RetOk || ret == RetLockOverflow then owner[ref := Some(a)] else owner;
      assert Owned(m', own, comp.issued) && (ret == RetOk ==> Member(m', own, a)) by {
        OwnedUpdated(m, ss, n, m', t.Index(), owner, comp.issued, c, short, lock, ret, ref, a);
      }
      owner := own;
    }

    /** `zb_address_delete`. */
    method DeleteAddress(ref: nat)
      requires Valid() && ref < TABLE_SIZE
      modifies t, t.addrMap, t.shortSorted
      ensures Valid() <==> old(t.addrMap[ref].used)
    {
      t.Delete(ref);
    }

    /** Fifteen manufacturers, an entry made by short address, and a sixteenth manufacturer's device with
        a zero device id, never heard of: looking it up finds the entry that has no IEEE address. */
    method ZeroCodeReachable() returns (ok: bool, ret: Ret, a: Ieee)
      requires Valid() && forall k :: 0 <= k < MANUFACTURER_TABLE_SIZE ==> !comp.used[k]
      requires forall r :: 0 <= r < TABLE_SIZE ==> !t.addrMap[r].used
      modifies this, comp, comp.used, comp.man, t, t.addrMap, t.shortSorted
      ensures ok && ret == RetOk && !Member(t.addrMap[..], owner, a)
    {
      a := Ieee(Manufacturer(16, 0, 0), 0, 0, 0, 0, 0);
      comp.FillSlots();
      OnlyShortEntry();
      ok, ret := FindStranger(a);
    }

    /** The same stranger, made known with short address 9: the entry of source 1, which never had an IEEE
        address, is given to it, and source 1 is not known any more. */
    method StolenEntry() returns (ok: bool, ret: Ret, ref: nat)
      requires Valid() && forall k :: 0 <= k < MANUFACTURER_TABLE_SIZE ==> !comp.used[k]
      requires forall r :: 0 <= r < TABLE_SIZE ==> !t.addrMap[r].used
      modifies this, comp, comp.used, comp.man, t, t.addrMap, t.shortSorted
      ensures ok && ret == RetOk && ref < TABLE_SIZE && t.addrMap[ref].addr == 9 && t.addrMap[ref].used
      ensures forall r :: 0 <= r < TABLE_SIZE && t.addrMap[r].used ==> t.addrMap[r].addr != 1
    {
      comp.FillSlots();
      OnlyShortEntry();
      assert !comp.used[0];
      var c;
      ok, c := comp.Compress(Ieee(Manufacturer(16, 0, 0), 0, 0, 0, 0, 0));
      ret, ref := Steal(c);
    }

    method Steal(c: Code) returns (ret: Ret, ref: nat)
      requires t.Good() && c == ZERO_CODE && |owner| == TABLE_SIZE
      requires exists r :: 0 <= r < TABLE_SIZE && t.addrMap[r].used && t.addrMap[r].ieee == ZERO_CODE && t.addrMap[r].addr == 1
                           && forall q :: 0 <= q < TABLE_SIZE && q != r ==> !t.addrMap[q].used
      modifies t, t.addrMap, t.shortSorted
      ensures ret == RetOk && ref < TABLE_SIZE && t.addrMap[ref].addr == 9 && t.addrMap[ref].used
      ensures forall r :: 0 <= r < TABLE_SIZE && t.addrMap[r].used ==> t.addrMap[r].addr != 1
    {
      ghost var m, ss, n := t.addrMap[..], t.shortSorted[..], t.nSorted;
      IeeeLookupDecides(m, c);
      ghost var r0 :| 0 <= r0 < TABLE_SIZE && m[r0].used && m[r0].ieee == ZERO_CODE && m[r0].addr == 1
                      && forall q :: 0 <= q < TABLE_SIZE && q != r0 ==> !m[q].used;
      assert IndexFind(m, ss, n, 9).None? by {
        if IndexFind(m, ss, n, 9).Some? { FoundIsUsed(m, ss, n, 9); assert false; }
      }
      assert PlanFor(m, ss, n, c, 9) == Take(r0);
      ret, ref := Update(t, c, 9, false);
      assert forall q :: 0 <= q < TABLE_SIZE && q != r0 ==> t.addrMap[..][q] == m[q];
    }

    method OnlyShortEntry()
      requires Valid() && forall r :: 0 <= r < TABLE_SIZE ==> !t.addrMap[r].used
      modifies this, t, t.addrMap, t.shortSorted
      ensures Valid() && ShortOnly(t.addrMap[..], owner) && forall a :: !Member(t.addrMap[..], owner, a)
      ensures exists r :: 0 <= r < TABLE_SIZE && t.addrMap[r].used && t.addrMap[r].ieee == ZERO_CODE && t.addrMap[r].addr == 1
                          && forall q :: 0 <= q < TABLE_SIZE && q != r ==> !t.addrMap[q].used
    {
      ghost var m := t.addrMap[..];
      assert !m[0].used && !Full(m);
      if t.Lookup(1).Some? { FoundIsUsed(m, t.shortSorted[..], t.nSorted, 1); assert false; }
      var ret, ref := ByShort(t, 1, true, false);
      assert forall r :: 0 <= r < TABLE_SIZE && r != ref ==> SameButClock(m[r], t.addrMap[..][r]);
      owner := owner[ref := None];
      assert t.addrMap[..][ref].used && owner[ref].None?;
    }

    method FindStranger(a: Ieee) returns (ok: bool, ret: Ret)
      requires Valid() && ShortOnly(t.addrMap[..], owner) && !Member(t.addrMap[..], owner, a)
      requires a == Ieee(a.manufacturer, 0, 0, 0, 0, 0)
      requires forall k :: 0 <= k < MANUFACTURER_TABLE_SIZE ==> comp.used[k] == (k > 0) && (k > 0 ==> comp.man[k] != a.manufacturer)
      modifies this, comp, comp.used, comp.man, t, t.addrMap, t.shortSorted
      ensures ok && ret == RetOk && !Member(t.addrMap[..], owner, a)
    {
      assert !comp.used[0];
      var c;
      ok, c := comp.Compress(a);
      assert c == ZERO_CODE;
      DecidedByMember(t.addrMap[..], owner, c, a);
      ghost var m := t.addrMap[..];
      var ref;
      ret, ref := ByIeee(t, c, false, false);
      assert forall r :: 0 <= r < TABLE_SIZE ==> m[r].used == t.addrMap[..][r].used;
    }
  }

  /** The owners after a lookup: a new entry belongs to `given`. */
  lemma OwnedLookedUp(
    m: seq<AddrEnt>, ix: set<int>, m': seq<AddrEnt>, ix': set<int>, owner: seq<Option<Ieee>>, issued: set<(Code, Ieee)>,
    s: Option<nat>, code: Option<Code>, short: u16, create: bool, lock: bool, ret: Ret, ref: nat, given: Option<Ieee>)
    requires Owned(m, owner, issued) && |m'| == TABLE_SIZE && (s.Some? ==> s.value < TABLE_SIZE)
    requires LookedUp(m, ix, m', ix', s, code, short, create, lock, ret, ref)
    requires if given.None? then code.None? else code.Some? && (code.value, given.value) in issued
    ensures Owned(m', if s.None? && create && !Full(m) then owner[ref := given] else owner, issued)
  {
    if s.None? && create && !Full(m) {
      assert forall r :: 0 <= r < TABLE_SIZE && r != ref ==> SameButClock(m[r], m'[r]);
    }
  }

  /** The owners after an update: the entry belongs to the address it was updated with. */
  lemma OwnedUpdated(
    m: seq<AddrEnt>, ss: seq<byte>, n: nat, m': seq<AddrEnt>, ix': set<int>, owner: seq<Option<Ieee>>, issued: set<(Code, Ieee)>,
    c: Code, short: u16, lock: bool, ret: Ret, ref: nat, a: Ieee)
    requires Owned(m, owner, issued) && |m'| == TABLE_SIZE && Sound(m, ss, n, -1) && UniqueIeee(m) && (c, a) in issued
    requires Updated(m, ss, n, m', ix', c, short, lock, ret, ref)
    ensures if ret == RetOk || ret == RetLockOverflow then
              ref < TABLE_SIZE && Owned(m', owner[ref := Some(a)], issued) && Member(m', owner[ref := Some(a)], a)
            else Owned(m', owner, issued)
  {
    UpdateUses(m, ss, n, c, short);
    match PlanFor(m, ss, n, c, short) {
      case NewEntry => OwnedLookedUp(m, ListedSet(ss, n), m', ix', owner, issued, None, Some(c), short, true, lock, ret, ref, Some(a));
      case Take(r) => OwnedBy(m, m', owner, issued, c, r, a);
      case Replace(g, r) => OwnedBy(m, m', owner, issued, c, r, a);
      case Conflict =>
    }
    assert ret == RetOk || ret == RetLockOverflow ==> ref < TABLE_SIZE && m'[ref].used && owner[ref := Some(a)][ref] == Some(a);
  }

  /** One entry is given an address, others are left alone or deleted. */
  lemma OwnedBy(m: seq<AddrEnt>, m': seq<AddrEnt>, owner: seq<Option<Ieee>>, issued: set<(Code, Ieee)>, c: Code, r: nat, a: Ieee)
    requires Owned(m, owner, issued) && |m'| == TABLE_SIZE && r < TABLE_SIZE && (c, a) in issued && m'[r].ieee == c
    requires forall q :: 0 <= q < TABLE_SIZE && q != r && m'[q].used ==> m'[q] == m[q]
    ensures Owned(m', owner[r := Some(a)], issued)
  {
  }

  lemma UpdateUses(m: seq<AddrEnt>, ss: seq<byte>, n: nat, c: Code, short: u16)
    requires Sound(m, ss, n, -1) && UniqueIeee(m)
    ensures var p := PlanFor(m, ss, n, c, short); (p.Take? || p.Replace?) ==> m[p.ref].used
  {
    if PlanFor(m, ss, n, c, short).Take? { TakeFree(m, ss, n, c, short); }
    if PlanFor(m, ss, n, c, short).Replace? { ReplaceFree(m, ss, n, c, short); }
  }
}
