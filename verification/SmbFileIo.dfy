/** Chunked reads and writes of a remote file (libcli/clireadwrite.c). */
module SmbFileIo {
  import opened Bytes
  import opened RemoteFile

  /** MIN_SMB_SIZE + 32: what a readX or writeX request costs of a packet. */
  const HEADER_OVERHEAD: nat := 35 + 32

  /** Largest count that fits the request's 16-bit field. */
  const MAX_COUNT: nat := 0xFFFF

  type uint32 = n: int | 0 <= n < 0x1_0000_0000

  /** The block size that a packet size leaves, as C computes it: an unsigned
      32-bit difference, taken as signed. */
  function FirstBlock(maxXmit: uint32): (b: int)
    ensures b <= MAX_COUNT
    ensures b == 0 <==> maxXmit == HEADER_OVERHEAD
  {
    var room := (maxXmit - HEADER_OVERHEAD) % 0x1_0000_0000;
    Min(if room < 0x8000_0000 then room else room - 0x1_0000_0000, MAX_COUNT)
  }

  /** The size of the next request: a negative block size, which is what a packet
      smaller than the overhead gives, is huge when it is compared with the
      unsigned rest. */
  function NextBlock(block: int, rest: nat): (n: nat)
    ensures n <= rest && (block != 0 && rest > 0 ==> n > 0)
  {
    if block < 0 then rest else Min(block, rest)
  }

  /** A request that is not empty and, for packet sizes that leave room for data,
      fits the packet and the request's 16-bit count. */
  predicate FitsPacket(n: nat, maxXmit: uint32) {
    0 < n && (67 < maxXmit < 0x8000_0000 ==> n <= 65535 && n + 67 <= maxXmit)
  }

  predicate BlockFits(block: int, maxXmit: uint32) {
    67 < maxXmit < 0x8000_0000 ==> 0 < block <= 65535 && block + 67 <= maxXmit
  }

  /** Unsigned 32-bit difference of the packet size and the old-style overhead. */
  function SmallRoom(maxXmit: uint32): uint32 {
    (maxXmit - 48) % 0x1_0000_0000
  }

  /** An open file on the server. `fullReads` marks a server that answers short
      only at the end of the file, `reliable` one that never fails; `stalls` is
      how often the server will yet accept nothing of what it is offered. */
  class RemoteHandle {
    var file: seq<byte>
    var stalls: nat

    /** The sizes of the requests sent so far. */
    var requests: seq<nat>

    const fullReads: bool
    const reliable: bool

    constructor (file: seq<byte>, fullReads: bool, reliable: bool, stalls: nat)
      ensures this.file == file && this.fullReads == fullReads && this.reliable == reliable && this.stalls == stalls
      ensures requests == []
    {
      this.file, this.fullReads, this.reliable, this.stalls, requests := file, fullReads, reliable, stalls, [];
    }

    /** One readX: at most `wanted` bytes from `offset`, stored in `buf` at `at`. */
    method RawRead(buf: array<byte>, at: nat, offset: nat, wanted: nat) returns (ok: bool, nread: nat)
      requires at + wanted <= buf.Length
      modifies buf, this`requests
      ensures requests == old(requests) + [wanted]
      ensures nread <= Min(wanted, Available(file, offset))
      ensures buf[..] == old(buf[..at]) + ReadAt(file, offset, nread) + old(buf[at + nread..])
      ensures reliable ==> ok
      ensures ok && fullReads ==> nread == Min(wanted, Available(file, offset))
    {
      requests := requests + [wanted];
      ok, nread := true, 0;
      if !reliable {
        if * {
          return false, 0;
        }
      }
      var most: nat := Min(wanted, Available(file, offset));
      if fullReads {
        nread := most;
      } else {
        assert most <= most;
        var n: nat :| n <= most;
        nread := n;
      }
      forall i | 0 <= i < nread {
        buf[at + i] := file[offset + i];
      }
    }

    /** One writeX: some of `buf[at..at + count]` at `offset`. */
    method RawWrite(buf: array<byte>, at: nat, offset: nat, count: nat) returns (ok: bool, nwritten: nat)
      requires at + count <= buf.Length
      modifies this`file, this`stalls, this`requests
      ensures requests == old(requests) + [count]
      ensures nwritten <= count && stalls <= old(stalls)
      ensures file == WriteAt(old(file), offset, buf[at..at + nwritten])
      ensures reliable ==> ok
      ensures ok && count > 0 && nwritten == 0 ==> stalls < old(stalls)
    {
      hide WriteAt;
      WriteAtNothing(file, offset);
      assert buf[at..at] == [];
      requests := requests + [count];
      ok, nwritten := true, 0;
      if !reliable {
        if * {
          return false, 0;
        }
      }
      if stalls > 0 {
        if * {
          stalls := stalls - 1;
          return true, 0;
        }
      }
      assert count <= count && (count > 0 ==> count > 0);
      var n: nat :| n <= count && (count > 0 ==> n > 0);
      nwritten := n;
      file := WriteAt(file, offset, buf[at..at + nwritten]);
    }
  }

  /** smbcli_read: fill `buf` with up to `size` bytes from `offset`, in requests
      no larger than the negotiated packet size allows; -1 on failure. */
  method Read(h: RemoteHandle, maxXmit: uint32, buf: array<byte>, offset: nat, size: nat) returns (ret: int)
    requires maxXmit != HEADER_OVERHEAD && size <= buf.Length
    modifies buf, h`requests
    ensures old(h.requests) <= h.requests
    ensures forall i :: |old(h.requests)| <= i < |h.requests| ==> FitsPacket(h.requests[i], maxXmit)
    ensures -1 <= ret <= Min(size, Available(h.file, offset))
    ensures ret >= 0 ==> buf[..ret] == ReadAt(h.file, offset, ret)
    ensures buf[size..] == old(buf[size..])
    ensures h.reliable ==> ret >= 0
    // a server that answers short only at the end makes this one read
    ensures ret >= 0 && h.fullReads ==> buf[..ret] == ReadAt(h.file, offset, size)
  {
    hide ReadAt;
    ReadAtNothing(h.file, offset);
    if size == 0 {
      return 0;
    }
    var readsize: int := FirstBlock(maxXmit);
    var total: nat := 0;
    while total < size
      invariant total <= Min(size, Available(h.file, offset))
      invariant readsize != 0 && BlockFits(readsize, maxXmit)
      invariant old(h.requests) <= h.requests
      invariant forall i :: |old(h.requests)| <= i < |h.requests| ==> FitsPacket(h.requests[i], maxXmit)
      invariant buf[..total] == ReadAt(h.file, offset, total)
      invariant buf[size..] == old(buf[size..])
    {
      readsize := NextBlock(readsize, size - total);
      ghost var soFar := buf[..total];
      var ok, nread := h.RawRead(buf, total, offset + total, readsize);
      if !ok {
        return -1;
      }
      assert buf[..total + nread] == soFar + ReadAt(h.file, offset + total, nread);
      ReadAtCompose(h.file, offset, total, nread);
      total := total + nread;
      if nread < readsize {
        break;
      }
    }
    ReadAtShort(h.file, offset, total, size);
    return total;
  }

  lemma ReadAtShort(file: seq<byte>, offset: nat, total: nat, size: nat)
    ensures total == Min(size, Available(file, offset)) ==> ReadAt(file, offset, total) == ReadAt(file, offset, size)
  {
  }

  /** smbcli_write: write `size` bytes of `buf` at `offset` in as many requests
      as it takes; -1 on failure. The loop goes on as often as the server stalls. */
  method Write(h: RemoteHandle, maxXmit: uint32, buf: array<byte>, offset: nat, size: nat)
    returns (ret: int, ghost done: nat)
    requires maxXmit != HEADER_OVERHEAD && size <= buf.Length
    modifies h`file, h`stalls, h`requests
    ensures old(h.requests) <= h.requests
    ensures forall i :: |old(h.requests)| <= i < |h.requests| ==> FitsPacket(h.requests[i], maxXmit)
    ensures done <= size && h.file == WriteAt(old(h.file), offset, buf[..done])
    ensures ret == size == done || ret == -1
    ensures h.reliable ==> ret == size
  {
    hide WriteAt;
    WriteAtNothing(h.file, offset);
    done := 0;
    assert buf[..0] == [];
    if size == 0 {
      return 0, done;
    }
    var block: int := FirstBlock(maxXmit);
    var total: nat := 0;
    while total < size
      invariant total == done <= size && block != 0 && BlockFits(block, maxXmit)
      invariant old(h.requests) <= h.requests
      invariant forall i :: |old(h.requests)| <= i < |h.requests| ==> FitsPacket(h.requests[i], maxXmit)
      invariant h.file == WriteAt(old(h.file), offset, buf[..total])
      decreases size - total, h.stalls
    {
      block := NextBlock(block, size - total);
      var ok, nwritten := h.RawWrite(buf, total, offset + total, block);
      WriteAtCompose(old(h.file), offset, buf[..total], buf[total..total + nwritten]);
      assert buf[..total] + buf[total..total + nwritten] == buf[..total + nwritten];
      done := total + nwritten;
      if !ok {
        return -1, done;
      }
      total := total + nwritten;
    }
    return total, done;
  }

  /** smbcli_smbwrite: like Write, but at least one request is sent even for no
      bytes, and a server that accepts nothing ends the loop. */
  method SmbWrite(h: RemoteHandle, maxXmit: uint32, buf: array<byte>, offset: nat, size: nat)
    returns (ret: int, ghost done: nat)
    requires size <= buf.Length
    modifies h`file, h`stalls, h`requests
    ensures old(h.requests) < h.requests
    ensures forall i :: |old(h.requests)| <= i < |h.requests| ==>
              h.requests[i] <= 65535 && (48 <= maxXmit ==> h.requests[i] + 48 <= maxXmit)
    ensures done <= size && h.file == WriteAt(old(h.file), offset, buf[..done])
    ensures ret == done || ret == -1
    ensures h.reliable ==> ret == done
    ensures ret >= 0 && old(h.stalls) == 0 && maxXmit != 48 ==> ret == size
  {
    hide WriteAt;
    WriteAtNothing(h.file, offset);
    var total: nat := 0;
    done := 0;
    assert buf[..0] == [];
    while true
      invariant total == done <= size && h.stalls <= old(h.stalls)
      invariant old(h.requests) <= h.requests && (total > 0 ==> old(h.requests) < h.requests)
      invariant forall i :: |old(h.requests)| <= i < |h.requests| ==>
                  h.requests[i] <= 65535 && (48 <= maxXmit ==> h.requests[i] + 48 <= maxXmit)
      invariant h.file == WriteAt(old(h.file), offset, buf[..total])
      decreases size - total
    {
      var request: nat := Min(Min(size - total, SmallRoom(maxXmit)), MAX_COUNT);
      var ok, nwritten := h.RawWrite(buf, total, offset + total, request);
      WriteAtCompose(old(h.file), offset, buf[..total], buf[total..total + nwritten]);
      assert buf[..total] + buf[total..total + nwritten] == buf[..total + nwritten];
      done := total + nwritten;
      if !ok {
        return -1, done;
      }
      if nwritten == 0 {
        break;
      }
      total := total + nwritten;
      if total == size {
        break;
      }
    }
    return total, done;
  }

  /** Write with one packet size, read back with another: the same bytes. */
  method WriteThenRead(h: RemoteHandle, writeXmit: uint32, readXmit: uint32, data: array<byte>, offset: nat)
    returns (back: array<byte>, ret: int)
    requires writeXmit != HEADER_OVERHEAD && readXmit != HEADER_OVERHEAD
    requires h.reliable && h.fullReads
    modifies h`file, h`stalls, h`requests
    ensures fresh(back) && ret == data.Length == back.Length
    ensures back[..] == data[..]
    ensures h.file == WriteAt(old(h.file), offset, data[..])
  {
    hide WriteAt, ReadAt;
    ghost var done;
    ret, done := Write(h, writeXmit, data, offset, data.Length);
    assert data[..data.Length] == data[..];
    back := new byte[data.Length];
    ret := Read(h, readXmit, back, offset, data.Length);
    ReadBack(old(h.file), offset, data[..]);
    assert back[..ret] == data[..];
  }
}
