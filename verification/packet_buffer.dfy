/** A packet buffer (common/zb_bufpool.c): a fixed array with a payload window that slides inside
    it, and parameters kept at its very end. */
module PacketBuffers {
  import opened Types

  const IO_BUF_SIZE: nat := 148

  /** The array after the `len` octets at `from` have been moved to `to` (`memmove`). */
  function Moved(b: seq<byte>, from: nat, len: nat, to: nat): (r: seq<byte>)
    requires from + len <= |b| && to + len <= |b|
    ensures |r| == |b|
    ensures r[to..to + len] == b[from..from + len]
    ensures forall k :: 0 <= k < |b| && !(to <= k < to + len) ==> r[k] == b[k]
  {
    b[..to] + b[from..from + len] + b[to + len..]
  }

  class PacketBuffer {
    const buf: array<byte>
    var len: nat
    var offset: nat

    ghost predicate Valid()
      reads this
    {
      buf.Length == IO_BUF_SIZE && offset + len <= IO_BUF_SIZE
    }

    ghost function Payload(): seq<byte>
      reads this, buf
      requires Valid()
    {
      buf[offset..offset + len]
    }

    /** The `size` octets at the end of the buffer. */
    ghost function Tail(size: nat): seq<byte>
      reads this, buf
      requires Valid() && size <= IO_BUF_SIZE
    {
      buf[IO_BUF_SIZE - size..]
    }

    constructor ()
      ensures Valid() && Payload() == [] && fresh(buf)
    {
      buf := new byte[IO_BUF_SIZE](_ => 0);
      len, offset := 0, 0;
    }

    method MemMove(from: nat, to: nat, count: nat)
      requires from + count <= buf.Length && to + count <= buf.Length
      modifies buf
      ensures buf[..] == Moved(old(buf[..]), from, count, to)
    {
      forall k | 0 <= k < count { buf[to + k] := buf[from + k]; }
      assert buf[to..to + count] == old(buf[from..from + count]);
    }

    /** `zb_buf_initial_alloc`: a fresh window of the given size in the middle. */
    method InitialAlloc(size: nat)
      requires Valid() && size < IO_BUF_SIZE
      modifies this`len, this`offset
      ensures Valid() && len == size && offset == (IO_BUF_SIZE - size) / 2
    {
      len := size;
      offset := (IO_BUF_SIZE - size) / 2;
    }

    /** `zb_buf_smart_alloc_left`: the window grows at its front; the old payload is its end. */
    method AllocLeft(size: nat)
      requires Valid() && size + len < IO_BUF_SIZE
      modifies this`len, this`offset, buf
      ensures Valid() && len == old(len) + size && Payload()[size..] == old(Payload())
      ensures old(offset) >= size ==> offset == old(offset) - size && buf[..] == old(buf[..])
      ensures old(offset) < size ==> offset == 0 && buf[..] == Moved(old(buf[..]), old(offset), old(len), size)
    {
      if offset < size {
        MemMove(offset, offset + (size - offset), len);
        offset := size;
      }
      len := len + size;
      offset := offset - size;
    }

    /** `zb_buf_smart_alloc_right`: it checks the window's size, not its place, so the window stays
        inside the buffer exactly when the new octets still fit behind the payload. */
    method AllocRight(size: nat)
      requires Valid() && size + len < IO_BUF_SIZE
      modifies this`len
      ensures len == old(len) + size
      ensures Valid() <==> old(offset + len) + size <= IO_BUF_SIZE
      ensures Valid() ==> Payload()[..old(len)] == old(Payload())
    {
      len := len + size;
    }

    /** 47 octets behind a fresh payload of 100 pass the check and run past the buffer. */
    method AllocRightOverrun()
      requires Valid()
      modifies this`len, this`offset
      ensures !Valid() && len < IO_BUF_SIZE
    {
      InitialAlloc(100);
      AllocRight(47);
    }

    /** `zb_buf_cut_left`: drop a prefix. */
    method CutLeft(size: nat)
      requires Valid() && size <= len
      modifies this`len, this`offset
      ensures Valid() && Payload() == old(Payload())[size..]
    {
      len := len - size;
      offset := offset + size;
    }

    /** `zb_buf_cut_right`: drop a suffix. */
    method CutRight(size: nat)
      requires Valid() && size <= len
      modifies this`len
      ensures Valid() && Payload() == old(Payload()[..len - size])
    {
      len := len - size;
    }

    /** `zb_buf_assign_param`: parameters go to the end of the buffer; the payload moves out of their
        way and does not change. */
    method AssignParam(param: seq<byte>)
      requires Valid() && len + |param| <= IO_BUF_SIZE
      modifies this`offset, buf
      ensures Valid() && Payload() == old(Payload()) && Tail(|param|) == param
      ensures offset + len + |param| <= IO_BUF_SIZE
    {
      var size := |param|;
      if IO_BUF_SIZE - (offset + len) < size {
        var delta := size - (IO_BUF_SIZE - (offset + len));
        MemMove(offset, offset - delta, len);
        offset := offset - delta;
      }
      WriteTail(param);
    }

    /** Writes octets at the end of the buffer, behind the payload. */
    method WriteTail(param: seq<byte>)
      requires Valid() && offset + len + |param| <= IO_BUF_SIZE
      modifies buf
      ensures Payload() == old(Payload()) && Tail(|param|) == param
    {
      ghost var p := Payload();
      var size := |param|;
      forall k | 0 <= k < size { buf[IO_BUF_SIZE - size + k] := param[k]; }
      assert Payload() == p;
    }
  }
}
