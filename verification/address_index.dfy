/** The second index of the address translation table (common/zb_address.c): references to the
    entries with a known short address, kept in ascending order of that address. */
module AddressIndex {
  import opened Types

  const TABLE_SIZE: nat := 101
  const UNKNOWN_SHORT: u16 := 0xffff

  /** A compressed IEEE address: manufacturer reference and device id. */
  datatype Code = Code(manufacturer: byte, id0: byte, id1: byte, id2: byte, id3: byte, id4: byte)

  /** The code of entries created without an IEEE address. */
  const ZERO_CODE: Code := Code(0, 0, 0, 0, 0, 0)

  datatype AddrEnt = AddrEnt(
    ieee: Code, addr: u16, used: bool, lockCnt: nat, clock: bool, dupCounter: byte, dupClock: nat)

  predicate Known(e: AddrEnt) { e.used && e.addr != UNKNOWN_SHORT }

  /** The index array: one octet per table entry, and the octet that follows the array in memory,
      which the removal code can read. */
  ghost predicate IndexShape(m: seq<AddrEnt>, ss: seq<byte>, n: nat) {
    |m| == TABLE_SIZE && |ss| == TABLE_SIZE + 1 && n <= TABLE_SIZE
  }

  /** The live part refers to known entries in strictly ascending short address, and not to `excl`. */
  ghost predicate Sound(m: seq<AddrEnt>, ss: seq<byte>, n: nat, excl: int) {
    && IndexShape(m, ss, n)
    && (forall k :: 0 <= k < n ==> ss[k] < TABLE_SIZE && ss[k] != excl)
    && (forall k {:trigger m[ss[k]]} :: 0 <= k < n ==> Known(m[ss[k]]))
    && (forall j, k {:trigger m[ss[j]], m[ss[k]]} :: 0 <= j < k < n ==> m[ss[j]].addr < m[ss[k]].addr)
  }

  /** `r` is in the live part. */
  ghost predicate Listed(ss: seq<byte>, n: nat, r: int) {
    exists k :: 0 <= k < n && k < |ss| && ss[k] == r
  }

  /** The live part misses no known entry other than `excl`. */
  ghost predicate Complete(m: seq<AddrEnt>, ss: seq<byte>, n: nat, excl: int) {
    forall r {:trigger Listed(ss, n, r)} {:trigger Known(m[r])} ::
      0 <= r < |m| && r != excl && Known(m[r]) ==> Listed(ss, n, r)
  }

  /** The references in the live part. */
  ghost function ListedSet(ss: seq<byte>, n: nat): set<int>
    requires n <= |ss|
  {
    set k {:trigger ss[k]} | 0 <= k < n :: ss[k] as int
  }

  /** The listed entry with a short address: what a scan of the live part finds. */
  function IndexFind(m: seq<AddrEnt>, ss: seq<byte>, n: nat, short: u16): (r: Option<nat>)
    requires n <= |ss|
    ensures r.Some? ==> r.value < |m| && m[r.value].addr == short && Listed(ss, n, r.value)
    ensures r.None? ==> forall k :: 0 <= k < n && ss[k] < |m| ==> m[ss[k]].addr != short
  {
    if n == 0 then None
    else if ss[n - 1] < |m| && m[ss[n - 1]].addr == short then Some(ss[n - 1])
    else IndexFind(m, ss, n - 1, short)
  }

  /** In a sound index at most one entry has a short address. */
  lemma FindIs(m: seq<AddrEnt>, ss: seq<byte>, n: nat, short: u16, r: nat)
    requires Sound(m, ss, n, -1) && r < |m| && Listed(ss, n, r) && m[r].addr == short
    ensures IndexFind(m, ss, n, short) == Some(r)
  {
    var q := IndexFind(m, ss, n, short).value;
    var j :| 0 <= j < n && ss[j] == r;
    var k :| 0 <= k < n && ss[k] == q;
  }

  // ---------------------------------------------------------------- removal

  /** `memmove` of `n - h` octets from `h + 1` to `h`, as the code asks for: one more than the live
      octets behind `h`, so the octet just past the live part comes along. */
  function Shift(ss: seq<byte>, h: nat, n: nat): (r: seq<byte>)
    requires h < n < |ss|
    ensures |r| == |ss|
    ensures forall k :: 0 <= k < |ss| ==> r[k] == if h <= k < n then ss[k + 1] else ss[k]
  {
    ss[..h] + ss[h + 1..n + 1] + ss[n..]
  }

  /** Where `ref` stands in the live part, or `n`. */
  function Find(ss: seq<byte>, n: nat, ref: byte): (h: nat)
    requires n <= |ss|
    ensures h <= n && forall k :: 0 <= k < h ==> ss[k] != ref
    ensures h < n ==> ss[h] == ref
    decreases n
  {
    if n == 0 then 0
    else
      var h := Find(ss, n - 1, ref);
      if h < n - 1 || ss[n - 1] == ref then h else n
  }

  /** `del_short_sorted` on a live part without repetition: the array and the live length it leaves.
      An octet equal to `ref` that came along with the move is counted as a second hit. */
  function DelIndex(ss: seq<byte>, n: nat, ref: byte): (r: (seq<byte>, nat))
    requires n < |ss|
    ensures |r.0| == |ss| && r.1 <= n
  {
    var h := Find(ss, n, ref);
    if h == n then (ss, n)
    else if h == n - 1 then (ss, n - 1)
    else (Shift(ss, h, n), if ss[n] == ref then n - 2 else n - 1)
  }

  /** The removal drops a second entry, the last one, exactly in this case. */
  predicate Loses(ss: seq<byte>, n: nat, ref: byte)
    requires n < |ss|
  {
    Find(ss, n, ref) + 1 < n && ss[n] == ref
  }

  lemma SoundNoRepeat(m: seq<AddrEnt>, ss: seq<byte>, n: nat, excl: int)
    requires Sound(m, ss, n, excl)
    ensures NoDup(ss[..n])
    ensures forall j, k :: 0 <= j < k < n ==> ss[j] != ss[k]
  {
    forall j, k | 0 <= j < k < n ensures ss[j] != ss[k] {
      assert m[ss[j]].addr < m[ss[k]].addr;
    }
  }

  /** Where the k-th entry after a removal comes from. */
  lemma DelIndexAt(ss: seq<byte>, n: nat, ref: byte, k: nat)
    requires n < |ss| && k < DelIndex(ss, n, ref).1
    ensures var h := Find(ss, n, ref);
            var k0 := if h <= k && h < n then k + 1 else k;
            k0 < n && k0 != h && DelIndex(ss, n, ref).0[k] == ss[k0] && (Loses(ss, n, ref) ==> k0 < n - 1)
  {
  }

  /** Where the k-th entry goes in a removal. */
  lemma DelIndexHas(ss: seq<byte>, n: nat, ref: byte, k: nat)
    requires k < n < |ss| && k != Find(ss, n, ref) && !(Loses(ss, n, ref) && k == n - 1)
    ensures var k1 := if k > Find(ss, n, ref) then k - 1 else k;
            k1 < DelIndex(ss, n, ref).1 && DelIndex(ss, n, ref).0[k1] == ss[k]
  {
    var h := Find(ss, n, ref);
    if h < n - 1 {
      var moved := Shift(ss, h, n);
      assert k < h ==> moved[k] == ss[k];
      assert k > h ==> moved[k - 1] == ss[k];
    }
  }

  /** What a removal leaves listed: everything but `ref`, and but the last entry when it loses one. */
  lemma DelIndexLists(m: seq<AddrEnt>, ss: seq<byte>, n: nat, ref: byte, r: int)
    requires Sound(m, ss, n, -1)
    ensures var (ss', n') := DelIndex(ss, n, ref);
            Listed(ss', n', r) <==> Listed(ss, n, r) && r != ref && !(Loses(ss, n, ref) && r == ss[n - 1])
  {
    var (ss', n') := DelIndex(ss, n, ref);
    SoundNoRepeat(m, ss, n, -1);
    if Listed(ss', n', r) {
      var k :| 0 <= k < n' && ss'[k] == r;
      DelIndexAt(ss, n, ref, k);
    }
    if Listed(ss, n, r) && r != ref && !(Loses(ss, n, ref) && r == ss[n - 1]) {
      var k :| 0 <= k < n && ss[k] == r;
      DelIndexHas(ss, n, ref, k);
    }
  }

  /** What is left listed, in order, when the reference stands at `h`: everything else, unless the octet
      behind the live part, which comes along with the move, is the reference again. */
  lemma DelIndexLeaves(ss: seq<byte>, n: nat, ref: byte, h: nat)
    requires h < n < |ss| && NoDup(ss[..n]) && ss[h] == ref
    ensures var (ss', n') := DelIndex(ss, n, ref);
            ss'[..n'] == ss[..h] + if ss[n] == ref && h + 1 < n then ss[h + 1..n - 1] else ss[h + 1..n]
  {
    assert Find(ss, n, ref) == h by {
      assert ss[..n][Find(ss, n, ref)] == ss[..n][h];
    }
  }

  lemma DelIndexMisses(ss: seq<byte>, n: nat, ref: byte)
    requires n < |ss| && forall k :: 0 <= k < n ==> ss[k] != ref
    ensures DelIndex(ss, n, ref) == (ss, n)
  {
    assert Find(ss, n, ref) == n;
  }

  /** The entry a removal drops besides the one it is asked to. */
  function LostSet(ss: seq<byte>, n: nat, ref: byte): set<int>
    requires n < |ss|
  {
    if Loses(ss, n, ref) then {ss[n - 1] as int} else {}
  }

  /** What a removal leaves listed. */
  ghost function AfterDel(ss: seq<byte>, n: nat, ref: byte): set<int>
    requires n < |ss|
  {
    ListedSet(DelIndex(ss, n, ref).0, DelIndex(ss, n, ref).1)
  }

  lemma DelIndexSet(m: seq<AddrEnt>, ss: seq<byte>, n: nat, ref: byte)
    requires Sound(m, ss, n, -1)
    ensures AfterDel(ss, n, ref) == ListedSet(ss, n) - {ref as int} - LostSet(ss, n, ref)
  {
    var (ss', n') := DelIndex(ss, n, ref);
    var after, before, lost := ListedSet(ss', n'), ListedSet(ss, n), LostSet(ss, n, ref);
    forall r ensures r in after <==> r in before && r != ref && r !in lost {
      DelIndexLists(m, ss, n, ref, r);
      assert r in ListedSet(ss', n') <==> Listed(ss', n', r);
      assert r in ListedSet(ss, n) <==> Listed(ss, n, r);
    }
  }

  lemma DelIndexSound(m: seq<AddrEnt>, ss: seq<byte>, n: nat, ref: byte)
    requires Sound(m, ss, n, -1)
    ensures var (ss', n') := DelIndex(ss, n, ref); Sound(m, ss', n', ref)
  {
    var (ss', n') := DelIndex(ss, n, ref);
    SoundNoRepeat(m, ss, n, -1);
    forall k | 0 <= k < n' ensures ss'[k] < TABLE_SIZE && ss'[k] != ref && Known(m[ss'[k]]) {
      DelIndexAt(ss, n, ref, k);
    }
    forall j, k | 0 <= j < k < n' ensures m[ss'[j]].addr < m[ss'[k]].addr {
      DelIndexAt(ss, n, ref, j);
      DelIndexAt(ss, n, ref, k);
    }
  }

  /** Removing a reference leaves a complete index of the others exactly when no entry is lost. */
  lemma DelIndexExact(m: seq<AddrEnt>, ss: seq<byte>, n: nat, ref: byte)
    requires Sound(m, ss, n, -1) && Complete(m, ss, n, -1)
    ensures var (ss', n') := DelIndex(ss, n, ref);
            Complete(m, ss', n', ref) <==> !Loses(ss, n, ref)
  {
    var (ss', n') := DelIndex(ss, n, ref);
    if Loses(ss, n, ref) {
      DelIndexLists(m, ss, n, ref, ss[n - 1]);
      assert Known(m[ss[n - 1]]) && m[ss[n - 1]].addr != m[ss[Find(ss, n, ref)]].addr;
    } else {
      forall r | 0 <= r < |m| && r != ref && Known(m[r]) ensures Listed(ss', n', r) {
        DelIndexLists(m, ss, n, ref, r);
      }
    }
  }

  // ---------------------------------------------------------------- insertion

  /** Inserting `ref` at `l` in the live part: the live octets from `l` on move up by one. */
  function AddIndex(ss: seq<byte>, n: nat, l: nat, ref: byte): (r: seq<byte>)
    requires l <= n && n + 1 < |ss|
    ensures |r| == |ss|
    ensures forall k :: 0 <= k < |ss| ==> r[k] == if l < k <= n then ss[k - 1] else if k == l then ref else ss[k]
  {
    ss[..l] + [ref] + ss[l..n] + ss[n + 1..]
  }

  /** `l` is the place of short address `a` in the live part. */
  ghost predicate PlaceFor(m: seq<AddrEnt>, ss: seq<byte>, n: nat, a: u16, l: nat)
    requires Sound(m, ss, n, -1)
  {
    && l <= n
    && (forall k :: 0 <= k < l ==> m[ss[k]].addr < a)
    && (forall k :: l <= k < n ==> a < m[ss[k]].addr)
  }

  /** At most the table's other entries are listed, so there is room for `ref`. */
  lemma RoomFor(m: seq<AddrEnt>, ss: seq<byte>, n: nat, ref: byte)
    requires Sound(m, ss, n, ref) && ref < TABLE_SIZE
    ensures n < TABLE_SIZE
  {
    SoundNoRepeat(m, ss, n, ref);
    PigeonHole(ss[..n] + [ref], TABLE_SIZE);
  }

  /** Inserting a known entry at its place keeps the index sound, for the table with its new data,
      and lists it in addition. */
  lemma AddIndexSound(m: seq<AddrEnt>, m': seq<AddrEnt>, ss: seq<byte>, n: nat, l: nat, ref: byte)
    requires Sound(m, ss, n, ref) && ref < TABLE_SIZE && n < TABLE_SIZE
    requires |m'| == TABLE_SIZE && Known(m'[ref]) && PlaceFor(m, ss, n, m'[ref].addr, l)
    requires forall r :: 0 <= r < TABLE_SIZE && r != ref ==> Known(m'[r]) == Known(m[r]) && m'[r].addr == m[r].addr
    ensures Sound(m', AddIndex(ss, n, l, ref), n + 1, -1)
  {
    var ss' := AddIndex(ss, n, l, ref);
    forall k | 0 <= k < n + 1 ensures ss'[k] < TABLE_SIZE && Known(m'[ss'[k]]) {
      AddIndexAt(ss, n, l, ref, k);
    }
    forall j, k | 0 <= j < k < n + 1 ensures m'[ss'[j]].addr < m'[ss'[k]].addr {
      AddIndexAt(ss, n, l, ref, j);
      AddIndexAt(ss, n, l, ref, k);
    }
  }

  /** Where the k-th entry after an insertion comes from. */
  lemma AddIndexAt(ss: seq<byte>, n: nat, l: nat, ref: byte, k: nat)
    requires l <= n && n + 1 < |ss| && k <= n
    ensures AddIndex(ss, n, l, ref)[k] == if k == l then ref else ss[if k > l then k - 1 else k]
  {
  }

  lemma AddIndexLists(ss: seq<byte>, n: nat, l: nat, ref: byte, r: int)
    requires l <= n && n + 1 < |ss|
    ensures Listed(AddIndex(ss, n, l, ref), n + 1, r) <==> r == ref || Listed(ss, n, r)
  {
    var ss' := AddIndex(ss, n, l, ref);
    if Listed(ss', n + 1, r) {
      var k :| 0 <= k < n + 1 && ss'[k] == r;
      if k != l { assert ss[if k > l then k - 1 else k] == r; }
    }
    assert ss'[l] == ref;
    if Listed(ss, n, r) {
      var k :| 0 <= k < n && ss[k] == r;
      assert ss'[if k >= l then k + 1 else k] == r;
    }
  }

  lemma AddIndexSet(ss: seq<byte>, n: nat, l: nat, ref: byte)
    requires l <= n && n + 1 < |ss|
    ensures ListedSet(AddIndex(ss, n, l, ref), n + 1) == ListedSet(ss, n) + {ref as int}
  {
    var ss' := AddIndex(ss, n, l, ref);
    var after, before := ListedSet(ss', n + 1), ListedSet(ss, n);
    forall r ensures r in after <==> r in before || r == ref {
      AddIndexLists(ss, n, l, ref, r);
      assert r in ListedSet(ss', n + 1) <==> Listed(ss', n + 1, r);
      assert r in ListedSet(ss, n) <==> Listed(ss, n, r);
    }
  }

  /** With the index complete, a table scan and the index know the same short addresses. */
  lemma IndexIsScan(m: seq<AddrEnt>, ss: seq<byte>, n: nat, r: nat, q: nat)
    requires Sound(m, ss, n, -1) && Complete(m, ss, n, -1)
    requires r < TABLE_SIZE && q < TABLE_SIZE && Known(m[r]) && Known(m[q]) && m[r].addr == m[q].addr
    ensures r == q
  {
    var j :| 0 <= j < n && ss[j] == r;
    var k :| 0 <= k < n && ss[k] == q;
  }

  /** An entry the index cannot list may be rewritten freely. */
  lemma UnknownRewrite(m: seq<AddrEnt>, ss: seq<byte>, n: nat, r: nat, e: AddrEnt)
    requires Sound(m, ss, n, -1) && r < TABLE_SIZE && !Known(m[r])
    ensures Sound(m[r := e], ss, n, r) && !Listed(ss, n, r)
    ensures Complete(m, ss, n, -1) <==> Complete(m[r := e], ss, n, r)
  {
    var m' := m[r := e];
    assert forall q :: 0 <= q < |m| && q != r ==> m'[q] == m[q];
    assert forall k :: 0 <= k < n ==> ss[k] != r;
    if Complete(m[r := e], ss, n, r) {
      forall q | 0 <= q < |m| && Known(m[q]) ensures Listed(ss, n, q) {
        assert m'[q] == m[q] && q != r;
      }
    }
  }

  /** Listing a known entry that was missing completes the index exactly if nothing else is missing. */
  lemma AddIndexComplete(m: seq<AddrEnt>, m': seq<AddrEnt>, ss: seq<byte>, n: nat, l: nat, ref: byte)
    requires |m| == |m'| == TABLE_SIZE && l <= n && n + 1 < |ss| && ref < TABLE_SIZE
    requires forall r :: 0 <= r < TABLE_SIZE && r != ref ==> Known(m'[r]) == Known(m[r])
    ensures Complete(m', AddIndex(ss, n, l, ref), n + 1, -1) <==> Complete(m, ss, n, ref)
  {
    var ss' := AddIndex(ss, n, l, ref);
    if Complete(m, ss, n, ref) {
      forall r | 0 <= r < |m'| && Known(m'[r]) ensures Listed(ss', n + 1, r) {
        AddIndexLists(ss, n, l, ref, r);
      }
    }
    if Complete(m', ss', n + 1, -1) {
      forall r | 0 <= r < |m| && r != ref && Known(m[r]) ensures Listed(ss, n, r) {
        AddIndexLists(ss, n, l, ref, r);
      }
    }
  }

  /** An unused entry is filled with `e` and, if its short address is known, listed at its place,
      which is looked up while the entry still counts as unused. */
  lemma OccupyIndex(m: seq<AddrEnt>, ss: seq<byte>, n: nat, l: nat, ref: byte, e: AddrEnt)
    requires Sound(m, ss, n, -1) && ref < TABLE_SIZE && !m[ref].used && e.used
    requires Sound(m[ref := e.(used := false)], ss, n, ref)
    requires Known(e) ==> n < TABLE_SIZE && PlaceFor(m[ref := e.(used := false)], ss, n, e.addr, l)
    ensures var ss' := if Known(e) then AddIndex(ss, n, l, ref) else ss;
            var n' := if Known(e) then n + 1 else n;
            Sound(m[ref := e], ss', n', -1) && (Complete(m[ref := e], ss', n', -1) <==> Complete(m, ss, n, -1))
  {
    var m2, m3 := m[ref := e.(used := false)], m[ref := e];
    UnknownRewrite(m, ss, n, ref, e.(used := false));
    if Known(e) {
      AddIndexSound(m2, m3, ss, n, l, ref);
      AddIndexComplete(m2, m3, ss, n, l, ref);
    } else {
      UnknownRewrite(m, ss, n, ref, e);
      assert !Known(m3[ref]);
    }
  }

  /** An entry the index excludes may be rewritten; if the index need not list it, it is excluded no
      more. */
  lemma ExcludedRewrite(m: seq<AddrEnt>, ss: seq<byte>, n: nat, ref: nat, e: AddrEnt)
    requires Sound(m, ss, n, ref) && ref < TABLE_SIZE
    ensures Sound(m[ref := e], ss, n, ref)
    ensures Complete(m[ref := e], ss, n, ref) <==> Complete(m, ss, n, ref)
    ensures !Known(e) ==> (Complete(m[ref := e], ss, n, -1) <==> Complete(m, ss, n, ref))
  {
    var m' := m[ref := e];
    assert forall q :: 0 <= q < |m| && q != ref ==> m'[q] == m[q];
    assert forall k :: 0 <= k < n ==> ss[k] != ref;
    if Complete(m', ss, n, ref) || (!Known(e) && Complete(m', ss, n, -1)) {
      forall q | 0 <= q < |m| && q != ref && Known(m[q]) ensures Listed(ss, n, q) {
        assert m'[q] == m[q];
      }
    }
  }

  /** The first of two removals loses nothing but possibly the second reference, and the second loses
      nothing. */
  predicate BothSafe(ss: seq<byte>, n: nat, s: byte, l: byte)
    requires n < |ss|
  {
    var (ss1, n1) := DelIndex(ss, n, s);
    (Loses(ss, n, s) ==> ss[n - 1] == l) && !Loses(ss1, n1, l)
  }

  /** The entry a removal loses is a known one, other than the one removed. */
  lemma LostEntry(m: seq<AddrEnt>, ss: seq<byte>, n: nat, excl: int, ref: byte)
    requires Sound(m, ss, n, excl) && Loses(ss, n, ref)
    ensures ss[n - 1] < TABLE_SIZE && Known(m[ss[n - 1]]) && ss[n - 1] != ref && ss[n - 1] != excl
    ensures Listed(ss, n, ss[n - 1])
  {
    SoundNoRepeat(m, ss, n, excl);
  }

  /** Completeness, said with the set of listed entries. */
  lemma CompleteBySet(m: seq<AddrEnt>, ss: seq<byte>, n: nat, excl: int)
    requires n <= |ss|
    ensures Complete(m, ss, n, excl) <==>
              forall r :: 0 <= r < |m| && r != excl && Known(m[r]) ==> r in ListedSet(ss, n)
  {
    assert forall r :: r in ListedSet(ss, n) <==> Listed(ss, n, r);
  }

  /** What two removals leave listed. */
  lemma TwoRemovalsSet(m: seq<AddrEnt>, ss: seq<byte>, n: nat, s: byte, l: byte)
    requires Sound(m, ss, n, -1)
    ensures var (ss1, n1) := DelIndex(ss, n, s);
            AfterDel(ss1, n1, l) == ListedSet(ss, n) - {s as int} - LostSet(ss, n, s) - {l as int} - LostSet(ss1, n1, l)
  {
    var (ss1, n1) := DelIndex(ss, n, s);
    DelIndexSet(m, ss, n, s);
    DelIndexSound(m, ss, n, s);
    DelIndexSet(m, ss1, n1, l);
  }

  /** Removing `s` and then `l` misses no other known entry exactly when both removals are safe. */
  lemma TwoRemovals(m: seq<AddrEnt>, ss: seq<byte>, n: nat, s: byte, l: byte)
    requires Sound(m, ss, n, -1) && Complete(m, ss, n, -1) && s != l && s < TABLE_SIZE
    ensures var (ss1, n1) := DelIndex(ss, n, s);
            var (ss2, n2) := DelIndex(ss1, n1, l);
            var m1 := m[s := m[s].(used := false)];
            Complete(m1, ss2, n2, l) <==> BothSafe(ss, n, s, l)
  {
    var (ss1, n1) := DelIndex(ss, n, s);
    var (ss2, n2) := DelIndex(ss1, n1, l);
    var m1 := m[s := m[s].(used := false)];
    var ix, lost1, lost2 := ListedSet(ss, n), LostSet(ss, n, s), LostSet(ss1, n1, l);
    TwoRemovalsSet(m, ss, n, s, l);
    CompleteBySet(m, ss, n, -1);
    CompleteBySet(m1, ss2, n2, l);
    TwoLost(m, ss, n, s, l);
    AllButLost(m, m1, ix, s, l, lost1, lost2);
  }

  /** The entries two removals lose. */
  lemma TwoLost(m: seq<AddrEnt>, ss: seq<byte>, n: nat, s: byte, l: byte)
    requires Sound(m, ss, n, -1)
    ensures var (ss1, n1) := DelIndex(ss, n, s);
            var lost1, lost2 := LostSet(ss, n, s), LostSet(ss1, n1, l);
            && (forall r :: r in lost1 ==> 0 <= r < |m| && Known(m[r]) && r != s)
            && (forall r :: r in lost2 ==> 0 <= r < |m| && Known(m[r]) && r != s && r != l)
            && (BothSafe(ss, n, s, l) <==> (forall r :: r in lost1 ==> r == l) && (forall r :: r !in lost2))
  {
    var (ss1, n1) := DelIndex(ss, n, s);
    DelIndexSound(m, ss, n, s);
    if Loses(ss, n, s) { LostEntry(m, ss, n, -1, s); }
    if Loses(ss1, n1, l) { LostEntry(m, ss1, n1, s, l); }
  }

  /** With all known entries in `ix`, those that remain after `s` and `l` and the lost ones have left are
      all known ones exactly if nothing but `l` was lost. */
  lemma AllButLost(m: seq<AddrEnt>, m1: seq<AddrEnt>, ix: set<int>, s: nat, l: nat, lost1: set<int>, lost2: set<int>)
    requires s < |m| && m1 == m[s := m[s].(used := false)] && forall r :: 0 <= r < |m| && Known(m[r]) ==> r in ix
    requires forall r :: r in lost1 ==> 0 <= r < |m| && Known(m[r]) && r != s
    requires forall r :: r in lost2 ==> 0 <= r < |m| && Known(m[r]) && r != s && r != l
    ensures (forall r :: 0 <= r < |m1| && r != l && Known(m1[r]) ==> r in ix - {s} - lost1 - {l} - lost2)
            <==> (forall r :: r in lost1 ==> r == l) && (forall r :: r !in lost2)
  {
    var rest := ix - {s} - lost1 - {l} - lost2;
    if r :| r in lost1 && r != l {
      assert Known(m1[r]) && r !in rest;
    } else if r :| r in lost2 {
      assert Known(m1[r]) && r !in rest;
    } else {
      forall r | 0 <= r < |m1| && r != l && Known(m1[r]) ensures r in rest {
        assert r != s && m1[r] == m[r];
      }
    }
  }

  // ---------------------------------------------------------------- the loss is reachable

  /** Entries 0 and 1 with short addresses 1 and 2, inserted one after the other into the zeroed index of
      an empty table, make a complete index. Removing entry 0 then empties it: entry 1 is lost. */
  lemma RemovalLosesEntry(m: seq<AddrEnt>)
    requires |m| == TABLE_SIZE && m[0].addr == 1 && m[1].addr == 2
    requires forall r :: 0 <= r < TABLE_SIZE ==> m[r].used == (r < 2)
    ensures var ss := AddIndex(AddIndex(seq(TABLE_SIZE + 1, _ => 0), 0, 0, 0), 1, 1, 1);
            && Sound(m, ss, 2, -1) && Complete(m, ss, 2, -1)
            && DelIndex(ss, 2, 0).1 == 0
  {
    var ss := AddIndex(AddIndex(seq(TABLE_SIZE + 1, _ => 0), 0, 0, 0), 1, 1, 1);
    assert ss[0] == 0 && ss[1] == 1 && ss[2] == 0;
    assert Listed(ss, 2, 0) && Listed(ss, 2, 1);
    assert Find(ss, 1, 0) == 0;
  }
}
