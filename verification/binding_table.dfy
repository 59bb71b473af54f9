/** The APS binding store (aps/aps_bind.c): destination rows that point at source rows by index. */
module BindingTables {
  import opened Types

  const SRC_TABLE_SIZE: nat := 32
  const DST_TABLE_SIZE: nat := 32
  const NOT_FOUND: nat := 255

  datatype Src = Src(addr: byte, endpoint: byte, cluster: u16)
  datatype Dst = DstLong(addr: byte, endpoint: byte) | DstGroup(group: u16)
  datatype DstRow = DstRow(dst: Dst, src: nat)
  datatype Link = Link(src: Src, dst: Dst)

  // ---------------------------------------------------------------- the tables as links

  /** Source rows are distinct, every index is in range, and no source row is unreferenced. */
  ghost predicate TablesOk(src: seq<Src>, dst: seq<DstRow>) {
    && NoDup(src)
    && (forall d :: 0 <= d < |dst| ==> dst[d].src < |src|)
    && (forall s :: 0 <= s < |src| ==> Referenced(dst, s))
  }

  ghost predicate Referenced(dst: seq<DstRow>, s: nat) {
    exists d :: 0 <= d < |dst| && dst[d].src == s
  }

  /** The ordered list of links the tables stand for. */
  function Links(src: seq<Src>, dst: seq<DstRow>): (r: seq<Link>)
    requires forall d :: 0 <= d < |dst| ==> dst[d].src < |src|
    ensures |r| == |dst|
    ensures forall d :: 0 <= d < |dst| ==> r[d] == Link(src[dst[d].src], dst[d].dst)
  {
    seq(|dst|, d requires 0 <= d < |dst| => Link(src[dst[d].src], dst[d].dst))
  }

  /** A list without any copy of `link`. */
  function Without(links: seq<Link>, link: Link): seq<Link> {
    if links == [] then []
    else
      var n := |links| - 1;
      Without(links[..n], link) + if links[n] == link then [] else [links[n]]
  }

  /** Destination rows without those for `target` at source row `s`. */
  function Kept(dst: seq<DstRow>, s: nat, target: Dst): (r: seq<DstRow>) {
    if dst == [] then []
    else
      var n := |dst| - 1;
      Kept(dst[..n], s, target) + if dst[n].src == s && dst[n].dst == target then [] else [dst[n]]
  }

  /** Indices above a removed source row drop by one. */
  function Renumbered(dst: seq<DstRow>, s: nat): (r: seq<DstRow>)
    ensures |r| == |dst|
    ensures forall d :: 0 <= d < |dst| ==> r[d] == Lowered(dst[d], s)
  {
    seq(|dst|, d requires 0 <= d < |dst| => Lowered(dst[d], s))
  }

  function Lowered(row: DstRow, s: nat): DstRow {
    if row.src > s then row.(src := row.src - 1) else row
  }

  // ---------------------------------------------------------------- lemmas

  /** What is left of a list of links is what is left of its parts, and of a single link it is that link, if
      it is another. */
  lemma {:induction false} WithoutParts(a: seq<Link>, x: Link, b: seq<Link>, link: Link)
    ensures Without([], link) == [] && Without([x], link) == if x == link then [] else [x]
    ensures Without(a + b, link) == Without(a, link) + Without(b, link)
  {
    assert [x][..0] == [];
    if b == [] {
      assert a + b == a;
    } else {
      var n := |b| - 1;
      assert (a + b)[..|a + b| - 1] == a + b[..n];
      WithoutParts(a, x, b[..n], link);
    }
  }

  lemma {:induction false} WithoutAbsent(links: seq<Link>, link: Link)
    ensures Without(links, link) == links <==> link !in links
    ensures |Without(links, link)| <= |links|
  {
    if links != [] {
      var n := |links| - 1;
      WithoutAbsent(links[..n], link);
      assert links == links[..n] + [links[n]];
    }
  }

  lemma {:induction false} KeptRows(dst: seq<DstRow>, s: nat, target: Dst, bound: nat)
    requires forall d :: 0 <= d < |dst| ==> dst[d].src < bound
    ensures var r := Kept(dst, s, target);
            |r| <= |dst| && forall d :: 0 <= d < |r| ==> r[d].src < bound && !(r[d].src == s && r[d].dst == target)
  {
    if dst != [] { KeptRows(dst[..|dst| - 1], s, target, bound); }
  }

  lemma {:induction false} KeptKeepsOthers(dst: seq<DstRow>, s: nat, target: Dst, d: nat)
    requires d < |dst| && !(dst[d].src == s && dst[d].dst == target)
    ensures dst[d] in Kept(dst, s, target)
  {
    var n := |dst| - 1;
    if d < n {
      KeptKeepsOthers(dst[..n], s, target, d);
      assert dst[..n][d] in Kept(dst[..n], s, target);
    }
  }

  /** Dropping the rows drops exactly the copies of the link, in place. */
  lemma {:induction false} KeptLinks(src: seq<Src>, dst: seq<DstRow>, s: nat, target: Dst)
    requires NoDup(src) && s < |src| && forall d :: 0 <= d < |dst| ==> dst[d].src < |src|
    ensures forall d :: 0 <= d < |Kept(dst, s, target)| ==> Kept(dst, s, target)[d].src < |src|
    ensures Links(src, Kept(dst, s, target)) == Without(Links(src, dst), Link(src[s], target))
  {
    if dst != [] {
      var n := |dst| - 1;
      KeptRows(dst, s, target, |src|);
      KeptLinks(src, dst[..n], s, target);
      assert Links(src, dst)[..n] == Links(src, dst[..n]);
    }
  }

  /** Removing an unreferenced source row and lowering the indices above it changes no link. */
  lemma RenumberedLinks(src: seq<Src>, dst: seq<DstRow>, s: nat)
    requires s < |src| && forall d :: 0 <= d < |dst| ==> dst[d].src < |src| && dst[d].src != s
    ensures forall d :: 0 <= d < |dst| ==> Renumbered(dst, s)[d].src < |RemoveAt(src, s)|
    ensures Links(RemoveAt(src, s), Renumbered(dst, s)) == Links(src, dst)
  {
  }

  lemma UnbindKeepsTables(src: seq<Src>, dst: seq<DstRow>, s: nat, target: Dst)
    requires TablesOk(src, dst) && s < |src|
    ensures var dst' := Kept(dst, s, target);
            if Referenced(dst', s) then TablesOk(src, dst')
            else (forall d :: 0 <= d < |dst'| ==> dst'[d].src != s) && TablesOk(RemoveAt(src, s), Renumbered(dst', s))
  {
    var dst' := Kept(dst, s, target);
    KeptRows(dst, s, target, |src|);
    forall q | 0 <= q < |src| && q != s ensures Referenced(dst', q) {
      assert Referenced(dst, q);
      var d :| 0 <= d < |dst| && dst[d].src == q;
      KeptKeepsOthers(dst, s, target, d);
    }
    if !Referenced(dst', s) {
      RemoveAtElements(src, s);
      var dst2 := Renumbered(dst', s);
      forall q | 0 <= q < |src| - 1 ensures Referenced(dst2, q) {
        var q0 := if q < s then q else q + 1;
        assert Referenced(dst', q0);
        var d :| 0 <= d < |dst'| && dst'[d].src == q0;
        assert dst2[d].src == q;
      }
    }
  }

  // ---------------------------------------------------------------- the store

  datatype Status = StatusOk | AddressError | TableFull | InvalidBinding | IllegalRequest

  /** The destination of a request: an IEEE address, given by the result of its table lookup, a group,
      or an addressing mode the binding table does not support. */
  datatype DstReq = ReqLong(lookup: Option<byte>, endpoint: byte) | ReqGroup(group: u16) | ReqInvalid

  function DstStatus(req: DstReq): Status {
    match req
    case ReqLong(None, _) => AddressError
    case ReqInvalid => InvalidBinding
    case _ => StatusOk
  }

  function ToDst(req: DstReq): Dst
    requires DstStatus(req) == StatusOk
  {
    match req
    case ReqLong(Some(addr), endpoint) => DstLong(addr, endpoint)
    case ReqGroup(group) => DstGroup(group)
  }

  /** Which requests have a destination, and which one; the others fail with their own status. */
  lemma DstAnswers(req: DstReq, addr: byte, endpoint: byte, group: u16)
    ensures DstStatus(req) == AddressError <==> req.ReqLong? && req.lookup == None
    ensures DstStatus(req) == InvalidBinding <==> req == ReqInvalid
    ensures DstStatus(req) == StatusOk && ToDst(req) == DstLong(addr, endpoint) <==> req == ReqLong(Some(addr), endpoint)
    ensures DstStatus(req) == StatusOk && ToDst(req) == DstGroup(group) <==> req == ReqGroup(group)
  {
  }

  class BindingTable {
    const src: array<Src>
    const dst: array<DstRow>
    var srcN: byte
    var dstN: byte

    ghost predicate Valid()
      reads this, src, dst
    {
      && src.Length == SRC_TABLE_SIZE && dst.Length == DST_TABLE_SIZE && src as object != dst as object
      && srcN <= SRC_TABLE_SIZE && dstN <= DST_TABLE_SIZE
      && TablesOk(src[..srcN], dst[..dstN])
    }

    ghost function Contents(): seq<Link>
      reads this, src, dst
      requires Valid()
    {
      Links(src[..srcN], dst[..dstN])
    }

    constructor ()
      ensures Valid() && Contents() == [] && srcN == dstN == 0 && fresh(src) && fresh(dst)
    {
      src := new Src[SRC_TABLE_SIZE](_ => Src(0, 0, 0));
      dst := new DstRow[DST_TABLE_SIZE](_ => DstRow(DstGroup(0), 0));
      srcN, dstN := 0, 0;
    }

    /** `aps_find_src_ref`: it tests row 0 before the row count, so in an empty table it may find the
        row left there by an earlier binding. */
    method FindSrcRef(key: Src) returns (l: nat)
      requires Valid()
      ensures srcN > 0 && l < srcN ==> src[l] == key
      ensures l == NOT_FOUND ==> forall k :: 0 <= k < srcN ==> src[k] != key
      ensures l != NOT_FOUND ==> l < srcN || (srcN == 0 && l == 0)
      ensures srcN == 0 ==> (l == 0 <==> src[0] == key)
    {
      l := 0;
      while true
        invariant l < srcN || (srcN == 0 && l == 0)
        invariant forall k :: 0 <= k < l ==> src[k] != key
        decreases SRC_TABLE_SIZE - l
      {
        if src[l] == key {
          return;
        }
        l := l + 1;
        if !(l < srcN) {
          break;
        }
      }
      l := NOT_FOUND;
    }

    /** `zb_apsme_bind_request`, given the result of the source's address lookup: success appends one
        link, failure changes nothing. */
    method Bind(srcLookup: Option<byte>, endpoint: byte, cluster: u16, req: DstReq) returns (status: Status)
      requires Valid()
      modifies this, src, dst
      ensures Valid()
      ensures status == StatusOk ==>
                srcLookup.Some? && DstStatus(req) == StatusOk
                && Contents() == old(Contents()) + [Link(Src(srcLookup.value, endpoint, cluster), ToDst(req))]
      ensures status != StatusOk ==> Contents() == old(Contents())
      ensures status == if srcLookup.None? then AddressError
                        else if old(dstN) == DST_TABLE_SIZE
                                || (old(srcN) == SRC_TABLE_SIZE && Src(srcLookup.value, endpoint, cluster) !in old(src[..])) then TableFull
                        else DstStatus(req)
    {
      if srcLookup.None? {
        return AddressError;
      }
      var key := Src(srcLookup.value, endpoint, cluster);
      var s := FindSrcRef(key);
      s := if s == NOT_FOUND then srcN else s;
      assert key in src[..srcN] <==> s < srcN;
      if s < SRC_TABLE_SIZE && dstN < DST_TABLE_SIZE {
        status := DstStatus(req);
        if status == StatusOk {
          ghost var s0, d0 := src[..srcN], dst[..dstN];
          if s == srcN {
            src[s] := key;
            srcN := srcN + 1;
          }
          dst[dstN] := DstRow(ToDst(req), s);
          dstN := dstN + 1;
          assert src[..srcN] == if key in s0 then s0 else s0 + [key];
          assert dst[..dstN] == d0 + [DstRow(ToDst(req), s)];
          BindKeepsTables(s0, d0, key, s, ToDst(req));
        }
      } else {
        status := TableFull;
      }
    }

    static lemma BindKeepsTables(src: seq<Src>, dst: seq<DstRow>, key: Src, s: nat, target: Dst)
      requires TablesOk(src, dst)
      requires if key in src then s < |src| && src[s] == key else s == |src|
      ensures var src', dst' := if key in src then src else src + [key], dst + [DstRow(target, s)];
              TablesOk(src', dst') && Links(src', dst') == Links(src, dst) + [Link(key, target)]
    {
      var src', dst' := if key in src then src else src + [key], dst + [DstRow(target, s)];
      forall q | 0 <= q < |src'| ensures Referenced(dst', q) {
        if q < |src| {
          assert Referenced(dst, q);
          var d :| 0 <= d < |dst| && dst[d].src == q;
          assert dst'[d].src == q;
        } else {
          assert dst'[|dst|].src == q;
        }
      }
    }

    /** Row `d` of the table, or row 0 of an empty one, which the loops read before the row count. */
    ghost predicate AtRow(d: nat, n: nat) { d < n || d == n == 0 }

    /** One removal of the compaction: the row count goes down and the rows behind row `d` move up. In
        an empty table the count wraps to 255, and the move leaves the array: `wild`. */
    method DropRow(d: nat) returns (wild: bool)
      requires dst.Length == DST_TABLE_SIZE && dstN <= DST_TABLE_SIZE && AtRow(d, dstN)
      modifies this`dstN, dst
      ensures wild <==> old(dstN) == 0
      ensures wild ==> dstN == 255
      ensures !wild ==> dstN == old(dstN) - 1 && dst[..dstN] == RemoveAt(old(dst[..dstN]), d)
      ensures dstN == 0 ==> dst[0] == old(dst[0])
    {
      dstN := (dstN + 255) % 256;
      wild := dstN + 1 > DST_TABLE_SIZE;
      if !wild {
        forall k | d <= k < dstN { dst[k] := dst[k + 1]; }
      }
    }

    /** The compaction loop of `zb_apsme_unbind_request`. */
    method DropRows(s: nat, target: Dst) returns (found: bool, wild: bool)
      requires dst.Length == DST_TABLE_SIZE && dstN <= DST_TABLE_SIZE
      modifies this`dstN, dst
      ensures wild <==> old(dstN) == 0 && old(dst[0]) == DstRow(target, s)
      ensures wild ==> dstN == 255
      ensures !wild ==> dstN <= DST_TABLE_SIZE && dst[..dstN] == Kept(old(dst[..dstN]), s, target)
      ensures old(dstN) > 0 ==> (found <==> Referenced(dst[..dstN], s)) && (dstN == 0 ==> dst[0] == DstRow(target, s))
      ensures old(dstN) == 0 && !wild ==> (found <==> old(dst[0]).src == s) && dst[0] == old(dst[0])
    {
      ghost var rows, done, rest := dst[..dstN], [], dst[..dstN];
      found, wild := false, false;
      var d := 0;
      while true
        invariant dstN <= DST_TABLE_SIZE && |done| == d && dst[..dstN] == done + rest
        invariant rest != [] || (rows == [] && d == 0 && dst[0] == old(dst[0]))
        invariant Kept(rows, s, target) == done + Kept(rest, s, target)
        invariant found <==> Referenced(done, s)
        decreases |rest|
      {
        assert dstN == |dst[..dstN]| == d + |rest|;
        ghost var next := if rest == [] then [] else rest[1..];
        ghost var more := if rest == [] then [] else [rest[0]];
        if rest != [] { KeptFirst(done, rest, s, target); }
        assert done + rest == done + more + next;
        var refers, kept;
        refers, kept, wild := VisitRow(d, s, target, done, rest);
        if wild {
          return;
        }
        if kept {
          found := found || refers;
          done := done + more;
          d := d + 1;
        }
        rest := next;
        assert dst[..dstN] == done + rest;
        assert rows != [] ==> dstN == |dst[..dstN]| == d + |rest|;
        if !(d < dstN) {
          break;
        }
      }
      assert rest == [] && done + rest == done && done + Kept(rest, s, target) == done;
    }

    static lemma {:induction false} KeptCons(rows: seq<DstRow>, s: nat, target: Dst)
      requires rows != []
      ensures Kept(rows, s, target)
              == (if rows[0].src == s && rows[0].dst == target then [] else [rows[0]]) + Kept(rows[1..], s, target)
    {
      var n := |rows| - 1;
      if n > 0 {
        KeptCons(rows[..n], s, target);
        assert rows[..n][1..] == rows[1..][..n - 1];
      }
    }

    /** What the walk keeps when it passes the first of the rows left. */
    static lemma KeptFirst(done: seq<DstRow>, rest: seq<DstRow>, s: nat, target: Dst)
      requires rest != []
      ensures done + rest == done + [rest[0]] + rest[1..]
      ensures done + Kept(rest, s, target)
              == (if rest[0].src == s && rest[0].dst == target then done else done + [rest[0]]) + Kept(rest[1..], s, target)
      ensures Referenced(done + [rest[0]], s) <==> Referenced(done, s) || rest[0].src == s
    {
      KeptCons(rest, s, target);
      ReferencedAppend(done, rest[0], s);
    }

    /** One turn of the compaction loop, at row `d`; `refers` is whether the row refers to `s`. */
    method VisitRow(d: nat, s: nat, target: Dst, ghost done: seq<DstRow>, ghost rest: seq<DstRow>)
      returns (refers: bool, kept: bool, wild: bool)
      requires dst.Length == DST_TABLE_SIZE && dstN <= DST_TABLE_SIZE && AtRow(d, dstN)
      requires dst[..dstN] == done + rest && |done| == d
      modifies this`dstN, dst
      ensures kept <==> old(dst[d]) != DstRow(target, s)
      ensures refers <==> old(dst[d]).src == s
      ensures rest != [] ==> old(dst[d]) == rest[0]
      ensures wild <==> !kept && old(dstN) == 0
      ensures wild ==> dstN == 255
      ensures kept ==> dstN == old(dstN) && dst[..dstN] == done + rest && dst[0] == old(dst[0])
      ensures !kept && !wild ==> dstN == old(dstN) - 1 && dst[..dstN] == done + rest[1..]
      ensures dstN == 0 ==> dst[0] == old(dst[0])
    {
      ghost var all := dst[..dstN];
      assert rest != [] ==> all[d] == rest[0] && dst[d] == all[d];
      wild := false;
      refers := dst[d].src == s;
      kept := !(refers && dst[d].dst == target);
      if !kept {
        wild := DropRow(d);
        assert rest != [] ==> RemoveAt(all, d) == done + rest[1..];
      }
    }

    static lemma ReferencedAppend(rows: seq<DstRow>, row: DstRow, s: nat)
      ensures Referenced(rows + [row], s) <==> Referenced(rows, s) || row.src == s
    {
      if Referenced(rows, s) {
        var d :| 0 <= d < |rows| && rows[d].src == s;
        assert (rows + [row])[d].src == s;
      }
      if row.src == s { assert (rows + [row])[|rows|].src == s; }
    }

    /** Removes source row `s` and lowers the indices above it, as the second half of
        `zb_apsme_unbind_request` does. In an empty table the row count wraps and the move leaves the
        array. The index loop also visits row 0 of an empty table. */
    method DropSource(s: nat) returns (wild: bool)
      requires src.Length == SRC_TABLE_SIZE && dst.Length == DST_TABLE_SIZE && src as object != dst as object
      requires AtRow(s, srcN) && srcN <= SRC_TABLE_SIZE && dstN <= DST_TABLE_SIZE
      modifies this`srcN, src, dst
      ensures wild <==> old(srcN) == 0
      ensures wild ==> srcN == 255
      ensures !wild ==> srcN == old(srcN) - 1 && src[..srcN] == RemoveAt(old(src[..srcN]), s)
                        && dst[..dstN] == Renumbered(old(dst[..dstN]), s)
      ensures srcN == 0 ==> src[0] == old(src[0])
      ensures dstN == 0 && old(dst[0]).src <= s ==> dst[0] == old(dst[0])
    {
      srcN := (srcN + 255) % 256;
      wild := srcN + 1 > SRC_TABLE_SIZE;
      if wild {
        return;
      }
      forall k | s <= k < srcN { src[k] := src[k + 1]; }
      ghost var first, rows := dst[0], dst[..dstN];
      var d := 0;
      while true
        invariant d <= DST_TABLE_SIZE && (d < dstN || d == 0)
        invariant srcN == 0 ==> src[0] == old(src[0])
        invariant srcN == old(srcN) - 1 && src[..srcN] == RemoveAt(old(src[..srcN]), s)
        invariant forall k :: 0 <= k < dstN ==> dst[k] == if k < d then Lowered(rows[k], s) else rows[k]
        invariant dstN == 0 ==> dst[0] == first
        decreases DST_TABLE_SIZE - d
      {
        if dst[d].src > s {
          dst[d] := dst[d].(src := dst[d].src - 1);
        }
        d := d + 1;
        if !(d < dstN) {
          break;
        }
      }
    }

    /** The table is empty and its first source row shows a former binding of this source. */
    ghost predicate Stale(key: Src)
      requires Valid()
      reads this, src, dst
    {
      srcN == 0 && src[0] == key
    }

    /** `zb_apsme_unbind_request`, given the result of the source's address lookup. Success drops every
        copy of the link and keeps the others in order, failure changes nothing. A source without
        binding is reported as such unless its stale row is found; then the request succeeds, and it
        leaves the tables (`wild`, with a row count of 255) unless the first destination row shows
        another binding of that row. */
    method Unbind(srcLookup: Option<byte>, endpoint: byte, cluster: u16, req: DstReq) returns (status: Status, wild: bool)
      requires Valid()
      modifies this, src, dst
      ensures status == if srcLookup.None? then IllegalRequest
                        else if Src(srcLookup.value, endpoint, cluster) in old(src[..srcN])
                                || old(Stale(Src(srcLookup.value, endpoint, cluster))) then DstStatus(req)
                        else InvalidBinding
      ensures wild <==> status == StatusOk && old(Stale(Src(srcLookup.value, endpoint, cluster)))
                        && !(old(dst[0]).src == 0 && old(dst[0]).dst != ToDst(req))
      ensures wild ==> !Valid() && (if old(dst[0]) == DstRow(ToDst(req), 0) then dstN == 255 else srcN == 255)
      ensures !wild ==> Valid()
      ensures !wild && status == StatusOk ==>
                Contents() == Without(old(Contents()), Link(Src(srcLookup.value, endpoint, cluster), ToDst(req)))
      ensures status != StatusOk ==> Contents() == old(Contents())
      ensures !wild && status == StatusOk && srcN == 0 && old(srcN) > 0 ==>
                src[0] == Src(srcLookup.value, endpoint, cluster) && dst[0] == DstRow(ToDst(req), 0)
    {
      wild := false;
      if srcLookup.None? {
        return IllegalRequest, wild;
      }
      var key := Src(srcLookup.value, endpoint, cluster);
      var s := FindSrcRef(key);
      assert key in src[..srcN] || Stale(key) <==> s != NOT_FOUND;
      if s == NOT_FOUND {
        return InvalidBinding, wild;
      }
      status := DstStatus(req);
      if status == StatusOk {
        wild := UnbindRow(s, ToDst(req));
      }
    }

    /** Unbinding undoes a binding that was not there before. */
    method BindUnbind(addr: byte, endpoint: byte, cluster: u16, req: DstReq) returns (bound: Status, unbound: Status, wild: bool)
      requires Valid() && (DstStatus(req) == StatusOk ==> Link(Src(addr, endpoint, cluster), ToDst(req)) !in Contents())
      modifies this, src, dst
      ensures bound == StatusOk ==> unbound == StatusOk && !wild
      ensures !wild && Valid() && Contents() == old(Contents())
    {
      wild, unbound := false, StatusOk;
      bound := Bind(Some(addr), endpoint, cluster, req);
      if bound == StatusOk {
        ghost var before, link := old(Contents()), Link(Src(addr, endpoint, cluster), ToDst(req));
        assert Contents()[|before|] == link;
        unbound, wild := Unbind(Some(addr), endpoint, cluster, req);
        WithoutParts(before, link, [link], link);
        WithoutAbsent(before, link);
      }
    }

    /** Whenever an unbind removes the last link, its repetition leaves the tables. */
    method UnbindAgain(addr: byte, endpoint: byte, cluster: u16, req: DstReq) returns (wild: bool)
      requires Valid() && DstStatus(req) == StatusOk && Contents() != []
      requires Without(Contents(), Link(Src(addr, endpoint, cluster), ToDst(req))) == []
      modifies this, src, dst
      ensures wild
    {
      assert Contents()[|Contents()| - 1] == Link(Src(addr, endpoint, cluster), ToDst(req));
      var status;
      status, wild := Unbind(Some(addr), endpoint, cluster, req);
      NoLink(src[..srcN], dst[..dstN]);
      status, wild := Unbind(Some(addr), endpoint, cluster, req);
    }

    /** The failing state is one binding and its removal away from a fresh table. */
    static method StaleReachable(addr: byte, endpoint: byte, cluster: u16, group: u16) returns (t: BindingTable, wild: bool)
      ensures wild
    {
      t := new BindingTable();
      var status := t.Bind(Some(addr), endpoint, cluster, ReqGroup(group));
      ghost var link := Link(Src(addr, endpoint, cluster), DstGroup(group));
      assert [] + [link] == [link];
      OneLink(t.src[..t.srcN], t.dst[..t.dstN], link);
      assert [link][..0] == [] && Without([link], link) == [];
      wild := t.UnbindAgain(addr, endpoint, cluster, ReqGroup(group));
    }

    static lemma OneLink(src: seq<Src>, dst: seq<DstRow>, link: Link)
      requires TablesOk(src, dst) && Links(src, dst) == [link]
      ensures |src| == 1 && src[0] == link.src
    {
      assert |dst| == 1 && Links(src, dst)[0] == link;
      assert forall s :: 0 <= s < |src| ==> Referenced(dst, s);
      assert |src| > 1 ==> Referenced(dst, 0) && Referenced(dst, 1);
    }

    static lemma NoLink(src: seq<Src>, dst: seq<DstRow>)
      requires TablesOk(src, dst) && Links(src, dst) == []
      ensures src == []
    {
      assert src != [] ==> Referenced(dst, 0);
    }

    /** The part of `zb_apsme_unbind_request` that changes the tables. */
    method UnbindRow(s: nat, target: Dst) returns (wild: bool)
      requires Valid() && AtRow(s, srcN)
      modifies this, src, dst
      ensures wild <==> old(srcN) == 0 && !(old(dst[0]).src == 0 && old(dst[0]).dst != target)
      ensures wild ==> !Valid() && (if old(dst[0]) == DstRow(target, 0) then dstN == 255 else srcN == 255)
      ensures !wild ==> Valid()
      ensures !wild && old(srcN) > 0 ==> Contents() == Without(old(Contents()), Link(old(src[s]), target))
      ensures !wild && old(srcN) == 0 ==> Contents() == []
      ensures srcN == 0 ==> src[0] == old(src[0])
      ensures srcN == 0 && old(srcN) > 0 ==> s == 0 && dst[0] == DstRow(target, 0)
    {
      ghost var s0, d0 := src[..srcN], dst[..dstN];
      if srcN > 0 { Prepare(s0, d0, s, target); }
      assert srcN == 0 ==> dstN == 0 && Kept([], s, target) == [];
      var found;
      found, wild := DropRows(s, target);
      if wild {
        return;
      }
      if !found {
        wild := DropSource(s);
      }
    }

    /** What the two halves of the removal do to a valid pair of tables. */
    static lemma Prepare(src: seq<Src>, dst: seq<DstRow>, s: nat, target: Dst)
      requires TablesOk(src, dst) && s < |src|
      ensures dst != []
      ensures var dst' := Kept(dst, s, target);
              var link := Link(src[s], target);
              && |dst'| <= |dst|
              && (Referenced(dst', s) ==> TablesOk(src, dst') && Links(src, dst') == Without(Links(src, dst), link))
              && (!Referenced(dst', s) ==>
                    && TablesOk(RemoveAt(src, s), Renumbered(dst', s))
                    && Links(RemoveAt(src, s), Renumbered(dst', s)) == Without(Links(src, dst), link)
                    && (|src| == 1 ==> dst' == []))
    {
      var dst' := Kept(dst, s, target);
      assert Referenced(dst, s);
      KeptRows(dst, s, target, |src|);
      UnbindKeepsTables(src, dst, s, target);
      KeptLinks(src, dst, s, target);
      assert |src| == 1 && dst' != [] ==> dst'[0].src == s;
      if !Referenced(dst', s) {
        RenumberedLinks(src, dst', s);
      }
    }
  }
}
