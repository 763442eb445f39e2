/** Block I/O of cifsdd: the two file handles and the routines that fill and
    drain the shared buffer (client/cifsddio.c). */
module DdIo {
  import opened Bytes
  import opened RemoteFile

  /** One half of `dd_stats`: full blocks, partial blocks and bytes moved. */
  datatype SideStats = SideStats(fullBlocks: nat, partialBlocks: nat, bytes: nat)

  class Stats {
    var input: SideStats
    var output: SideStats

    constructor ()
      ensures input == SideStats(0, 0, 0) && output == SideStats(0, 0, 0)
    {
      input, output := SideStats(0, 0, 0), SideStats(0, 0, 0);
    }
  }

  /** The block counters are consistent with the byte counter: a full block is
      `blockSize` bytes, a partial one is at least 1 byte and less than a block. */
  predicate Accounts(s: SideStats, blockSize: nat) {
    s.fullBlocks * blockSize + s.partialBlocks
    <= s.bytes <=
    s.fullBlocks * blockSize + s.partialBlocks * (blockSize - 1)
  }

  /** The counters after one transfer of `moved` bytes that asked for a block. */
  function Count(s: SideStats, moved: nat, blockSize: nat): SideStats {
    if moved == blockSize
    then s.(fullBlocks := s.fullBlocks + 1, bytes := s.bytes + moved)
    else s.(partialBlocks := s.partialBlocks + 1, bytes := s.bytes + moved)
  }

  lemma CountAccounts(s: SideStats, moved: nat, blockSize: nat)
    requires 0 < moved <= blockSize
    requires Accounts(s, blockSize)
    ensures Accounts(Count(s, moved, blockSize), blockSize)
  {
    assert (s.fullBlocks + 1) * blockSize == s.fullBlocks * blockSize + blockSize;
    assert (s.partialBlocks + 1) * (blockSize - 1) == s.partialBlocks * (blockSize - 1) + (blockSize - 1);
  }

  /** How many blocks it takes to hold `n` bytes, but at least one. */
  function Blocks(blockSize: nat, n: nat): (k: nat)
    requires 0 < blockSize
    ensures 1 <= k && n <= blockSize * k && (1 < k ==> blockSize * (k - 1) < n)
  {
    var k := (n + blockSize - 1) / blockSize;
    assert n + blockSize - 1 == blockSize * k + (n + blockSize - 1) % blockSize;
    assert blockSize * (k - 1) == blockSize * k - blockSize;
    if k == 0 then 1 else k
  }

  lemma MoreBlocks(blockSize: nat, x: nat, y: nat)
    ensures x <= y ==> blockSize * x <= blockSize * y
  {
    if x <= y {
      assert blockSize * y == blockSize * x + blockSize * (y - x);
      assert blockSize * (y - x) >= 0;
    }
  }

  /** What the number of blocks is known by. */
  lemma BlocksAre(blockSize: nat, n: nat, k: nat)
    requires 0 < blockSize && 1 <= k && n <= blockSize * k && (1 < k ==> blockSize * (k - 1) < n)
    ensures Blocks(blockSize, n) == k
  {
    hide Blocks;
    var blocks := Blocks(blockSize, n);
    MoreBlocks(blockSize, k, blocks - 1);
    MoreBlocks(blockSize, blocks, k - 1);
  }

  /** What full-size reads have gained on the way to `wanted` bytes: some blocks,
      each begun before there was enough, or all that is available. */
  ghost predicate Gaining(gained: int, available: nat, blockSize: nat, wanted: int) {
    exists j: nat :: gained == Min(available, blockSize * j) && (j == 0 || blockSize * (j - 1) < wanted)
  }

  lemma GainingNothing(available: nat, blockSize: nat, wanted: int)
    ensures Gaining(0, available, blockSize, wanted)
  {
    assert 0 == Min(available, blockSize * 0);
  }

  lemma GainingStep(gained: int, n: nat, available: nat, blockSize: nat, wanted: int)
    requires Gaining(gained, available, blockSize, wanted) && 0 <= gained < wanted
    requires 0 < n == Min(blockSize, available - gained)
    ensures Gaining(gained + n, available, blockSize, wanted)
  {
    var j: nat :| gained == Min(available, blockSize * j) && (j == 0 || blockSize * (j - 1) < wanted);
    assert blockSize * (j + 1) == blockSize * j + blockSize;
    assert gained + n == Min(available, blockSize * (j + 1)) && blockSize * (j + 1 - 1) < wanted;
  }

  lemma GainingEnough(gained: int, available: nat, blockSize: nat, wanted: nat)
    requires 0 < blockSize && 0 < wanted && Gaining(gained, available, blockSize, wanted)
    requires wanted <= gained || gained == available
    ensures gained == Min(available, blockSize * Blocks(blockSize, wanted))
  {
    hide Blocks;
    var j: nat :| gained == Min(available, blockSize * j) && (j == 0 || blockSize * (j - 1) < wanted);
    assert j == 0 ==> blockSize * j == 0;
    if wanted <= gained {
      BlocksAre(blockSize, wanted, j);
    } else {
      assert blockSize * Blocks(blockSize, wanted) >= wanted;
    }
  }

  /** The reading side: a remote file, the offset kept by the client, and the
      end-of-file flag. `fullReads` marks a server that never answers short
      before the end of the file, `reliable` one that never fails. */
  class InputHandle {
    const file: seq<byte>
    const fullReads: bool
    const reliable: bool
    var offset: nat
    var endOfFile: bool

    constructor (file: seq<byte>, fullReads: bool, reliable: bool)
      ensures this.file == file && this.fullReads == fullReads && this.reliable == reliable
      ensures offset == 0 && !endOfFile
    {
      this.file, this.fullReads, this.reliable := file, fullReads, reliable;
      offset, endOfFile := 0, false;
    }

    method Seek(position: nat)
      modifies this`offset
      ensures offset == position
    {
      offset := position;
    }

    /** Any failure, any short read; a read of no bytes only at the end. */
    method Read(buf: array<byte>, at: nat, wanted: nat) returns (ok: bool, actual: nat)
      requires 0 < wanted && at + wanted <= buf.Length
      modifies this`offset, buf
      ensures actual <= wanted && offset == old(offset) + actual
      ensures actual <= Available(file, old(offset))
      ensures buf[..] == old(buf[..at]) + ReadAt(file, old(offset), actual) + old(buf[at + actual..])
      ensures !ok ==> actual == 0
      ensures reliable ==> ok
      ensures ok && actual == 0 ==> Available(file, offset) == 0
      ensures ok && fullReads ==> actual == Min(wanted, Available(file, old(offset)))
    {
      ok, actual := true, 0;
      if !reliable {
        if * {
          return false, 0;
        }
      }
      var most: nat := Min(wanted, Available(file, offset));
      if fullReads {
        actual := most;
      } else {
        assert most <= most && (most > 0 ==> most > 0);
        var n: nat :| n <= most && (most > 0 ==> n > 0);
        actual := n;
      }
      forall i | 0 <= i < actual {
        buf[at + i] := file[offset + i];
      }
      offset := offset + actual;
    }
  }

  /** The writing side. `fullWrites` marks a server that never writes short,
      `reliable` one that never fails and always takes at least one byte. */
  class OutputHandle {
    var file: seq<byte>
    const fullWrites: bool
    const reliable: bool
    var offset: nat

    constructor (file: seq<byte>, fullWrites: bool, reliable: bool)
      ensures this.file == file && this.fullWrites == fullWrites && this.reliable == reliable && offset == 0
    {
      this.file, this.fullWrites, this.reliable, offset := file, fullWrites, reliable, 0;
    }

    method Seek(position: nat)
      modifies this`offset
      ensures offset == position
    {
      offset := position;
    }

    /** Any failure, any short write. */
    method Write(buf: array<byte>, at: nat, wanted: nat) returns (ok: bool, actual: nat)
      requires at + wanted <= buf.Length
      modifies this`offset, this`file
      ensures actual <= wanted && offset == old(offset) + actual
      ensures file == WriteAt(old(file), old(offset), buf[at..at + actual])
      ensures !ok ==> actual == 0
      ensures reliable ==> ok && (wanted > 0 ==> actual > 0)
      ensures ok && fullWrites ==> actual == wanted
    {
      hide WriteAt;
      WriteAtNothing(file, offset);
      assert buf[at..at] == [];
      ok, actual := true, 0;
      if !reliable {
        if * {
          return false, 0;
        }
      }
      if fullWrites {
        actual := wanted;
      } else {
        assert wanted <= wanted && (reliable && wanted > 0 ==> wanted > 0);
        var n: nat :| n <= wanted && (reliable && wanted > 0 ==> n > 0);
        actual := n;
      }
      file := WriteAt(file, offset, buf[at..at + actual]);
      offset := offset + actual;
    }
  }

  /** dd_fill_block: read blocks of `blockSize` until the buffer holds at least
      `needSize` bytes or the input ends. */
  method FillBlock(h: InputHandle, buf: array<byte>, stats: Stats,
                   bufSize: nat, needSize: nat, blockSize: nat)
    returns (ok: bool, newSize: nat)
    requires 0 < blockSize && 0 < needSize
    requires bufSize <= buf.Length && needSize + blockSize - 1 <= buf.Length
    modifies h`offset, h`endOfFile, buf, stats`input
    // conservation: what the buffer gained is what the input handle consumed
    ensures bufSize <= newSize <= Max(bufSize, needSize + blockSize - 1) && newSize <= buf.Length
    ensures h.offset == old(h.offset) + (newSize - bufSize)
    ensures newSize - bufSize <= Available(h.file, old(h.offset))
    ensures buf[..newSize] == old(buf[..bufSize]) + ReadAt(h.file, old(h.offset), newSize - bufSize)
    // why it stopped
    ensures h.reliable ==> ok
    ensures ok ==> needSize <= newSize || h.endOfFile
    ensures h.endOfFile && !old(h.endOfFile) ==> Available(h.file, h.offset) == 0
    ensures old(h.endOfFile) ==> h.endOfFile
    ensures ok && bufSize < needSize && newSize == bufSize ==> h.endOfFile
    ensures ok && h.fullReads && bufSize < needSize ==>
              newSize - bufSize == Min(Available(h.file, old(h.offset)),
                                       blockSize * Blocks(blockSize, needSize - bufSize))
    // statistics
    ensures stats.input.bytes == old(stats.input.bytes) + (newSize - bufSize)
    ensures old(Accounts(stats.input, blockSize)) ==> Accounts(stats.input, blockSize)
  {
    hide ReadAt, Accounts, Gaining, Blocks;
    ok, newSize := true, bufSize;
    ReadAtNothing(h.file, h.offset);
    GainingNothing(Available(h.file, h.offset), blockSize, needSize - bufSize);
    while newSize < needSize
      invariant ok
      invariant bufSize <= newSize <= Max(bufSize, needSize + blockSize - 1)
      invariant h.offset == old(h.offset) + (newSize - bufSize)
      invariant newSize - bufSize <= Available(h.file, old(h.offset))
      invariant buf[..newSize] == old(buf[..bufSize]) + ReadAt(h.file, old(h.offset), newSize - bufSize)
      invariant h.endOfFile == old(h.endOfFile)
      invariant h.fullReads ==>
                  Gaining(newSize - bufSize, Available(h.file, old(h.offset)), blockSize, needSize - bufSize)
      invariant stats.input.bytes == old(stats.input.bytes) + (newSize - bufSize)
      invariant old(Accounts(stats.input, blockSize)) ==> Accounts(stats.input, blockSize)
    {
      ghost var soFar := buf[..newSize];
      ghost var from := h.offset;
      var readSize: nat;
      ok, readSize := h.Read(buf, newSize, blockSize);
      assert buf[..newSize + readSize] == soFar + ReadAt(h.file, from, readSize);
      if !ok {
        return;
      }
      if readSize == 0 {
        h.endOfFile := true;
        break;
      }
      if h.fullReads {
        GainingStep(newSize - bufSize, readSize, Available(h.file, old(h.offset)), blockSize, needSize - bufSize);
      }
      ReadAtCompose(h.file, old(h.offset), newSize - bufSize, readSize);
      newSize := newSize + readSize;
      if old(Accounts(stats.input, blockSize)) {
        CountAccounts(stats.input, readSize, blockSize);
      }
      stats.input := Count(stats.input, readSize, blockSize);
    }
    if h.fullReads && bufSize < needSize {
      GainingEnough(newSize - bufSize, Available(h.file, old(h.offset)), blockSize, needSize - bufSize);
    }
  }

  /** One write of the flush routine, with its zero-byte check and statistics. */
  method WriteCounted(h: OutputHandle, buf: array<byte>, stats: Stats, at: nat, wanted: nat, blockSize: nat)
    returns (ok: bool, writeSize: nat)
    requires wanted <= blockSize && at + wanted <= buf.Length
    modifies h`offset, h`file, stats`output
    ensures writeSize <= wanted && h.offset == old(h.offset) + writeSize
    ensures h.file == WriteAt(old(h.file), old(h.offset), buf[at..at + writeSize])
    ensures ok ==> 0 < writeSize
    ensures !ok ==> writeSize == 0
    ensures h.reliable && wanted > 0 ==> ok
    ensures ok && h.fullWrites ==> writeSize == wanted
    ensures stats.output.bytes == old(stats.output.bytes) + writeSize
    ensures old(Accounts(stats.output, blockSize)) ==> Accounts(stats.output, blockSize)
  {
    ok, writeSize := h.Write(buf, at, wanted);
    if !ok {
      return;
    }
    if writeSize == 0 {
      ok := false;
      return;
    }
    if Accounts(stats.output, blockSize) {
      CountAccounts(stats.output, writeSize, blockSize);
    }
    stats.output := Count(stats.output, writeSize, blockSize);
  }

  /** The loop of the flush routine: write whole blocks, from position `from`
      on, as long as the buffer holds one. */
  method WriteFullBlocks(h: OutputHandle, buf: array<byte>, stats: Stats, from: nat, bufSize: nat, blockSize: nat)
    returns (ok: bool, total: nat)
    requires 0 < blockSize && from <= bufSize <= buf.Length
    modifies h`offset, h`file, stats`output
    ensures from <= total <= bufSize && h.offset == old(h.offset) + (total - from)
    ensures h.file == WriteAt(old(h.file), old(h.offset), buf[from..total])
    ensures ok ==> bufSize - total < blockSize
    ensures h.reliable ==> ok
    ensures ok && h.fullWrites ==> bufSize - total == (bufSize - from) % blockSize
    ensures stats.output.bytes == old(stats.output.bytes) + (total - from)
    ensures old(Accounts(stats.output, blockSize)) ==> Accounts(stats.output, blockSize)
  {
    hide WriteAt, Accounts, Count;
    ok, total := true, from;
    WriteAtNothing(h.file, h.offset);
    assert buf[from..from] == [];
    while bufSize - total >= blockSize
      invariant from <= total <= bufSize
      invariant h.offset == old(h.offset) + (total - from)
      invariant h.file == WriteAt(old(h.file), old(h.offset), buf[from..total])
      invariant h.fullWrites ==> (bufSize - total) % blockSize == (bufSize - from) % blockSize
      invariant stats.output.bytes == old(stats.output.bytes) + (total - from)
      invariant old(Accounts(stats.output, blockSize)) ==> Accounts(stats.output, blockSize)
    {
      var writeSize: nat;
      ok, writeSize := WriteCounted(h, buf, stats, total, blockSize, blockSize);
      WriteAtCompose(old(h.file), old(h.offset), buf[from..total], buf[total..total + writeSize]);
      assert buf[from..total] + buf[total..total + writeSize] == buf[from..total + writeSize];
      OneBlockLess(bufSize - total, blockSize);
      total := total + writeSize;
      if !ok {
        return;
      }
    }
    ok := true;
    LessThanABlock(bufSize - total, blockSize);
  }

  lemma OneBlockLess(n: nat, blockSize: nat)
    requires 0 < blockSize <= n
    ensures (n - blockSize) % blockSize == n % blockSize
  {
    var q, r := n / blockSize, n % blockSize;
    Division(n, blockSize);
    assert q >= 1;
    assert blockSize * (q - 1) == blockSize * q - blockSize;
    RemainderIs(n - blockSize, blockSize, q - 1, r);
  }

  lemma RemainderIs(n: nat, blockSize: nat, q: nat, r: nat)
    requires 0 < blockSize && n == blockSize * q + r && r < blockSize
    ensures n % blockSize == r
  {
    var q', r' := n / blockSize, n % blockSize;
    Division(n, blockSize);
    SameQuotient(blockSize, q, r, q', r');
  }

  lemma Division(n: nat, blockSize: nat)
    requires 0 < blockSize
    ensures n == blockSize * (n / blockSize) + n % blockSize
  {
  }

  lemma SameQuotient(blockSize: nat, q: nat, r: nat, q': nat, r': nat)
    requires blockSize * q + r == blockSize * q' + r' && r < blockSize && r' < blockSize
    ensures q == q' && r == r'
  {
    MoreBlocks(blockSize, q + 1, q');
    MoreBlocks(blockSize, q' + 1, q);
    assert blockSize * (q + 1) == blockSize * q + blockSize;
    assert blockSize * (q' + 1) == blockSize * q' + blockSize;
  }

  lemma LessThanABlock(n: nat, blockSize: nat)
    requires n < blockSize
    ensures n % blockSize == n
  {
  }

  /** memmove of `n` bytes from position `from` to the head of the buffer. */
  method ShiftToHead(buf: array<byte>, from: nat, n: nat)
    requires from + n <= buf.Length
    modifies buf
    ensures buf[..n] == old(buf[from..from + n])
  {
    forall i | 0 <= i < n {
      buf[i] := buf[from + i];
    }
  }

  /** dd_flush_block: write out blocks of `blockSize`, or the one partial block
      the buffer holds, and shift what remains to the head of the buffer. */
  method FlushBlock(h: OutputHandle, buf: array<byte>, stats: Stats, bufSize: nat, blockSize: nat)
    returns (ok: bool, newSize: nat)
    requires 0 < blockSize && bufSize <= buf.Length
    modifies h`offset, h`file, buf, stats`output
    // conservation: what left the buffer is what the output handle gained
    ensures old(h.offset) <= h.offset <= old(h.offset) + bufSize
    ensures h.file == WriteAt(old(h.file), old(h.offset), old(buf[..])[..h.offset - old(h.offset)])
    ensures ok ==> newSize == bufSize - (h.offset - old(h.offset)) < Min(blockSize, bufSize)
    ensures ok ==> buf[..newSize] == old(buf[..])[bufSize - newSize..bufSize]
    ensures !ok ==> newSize == bufSize
    ensures bufSize == 0 ==> !ok
    ensures h.reliable && bufSize > 0 ==> ok
    ensures ok && h.fullWrites ==> newSize == if bufSize < blockSize then 0 else bufSize % blockSize
    // statistics
    ensures stats.output.bytes == old(stats.output.bytes) + (h.offset - old(h.offset))
    ensures old(Accounts(stats.output, blockSize)) ==> Accounts(stats.output, blockSize)
  {
    hide WriteAt, Accounts, Count;
    ok, newSize := true, bufSize;
    var total: nat := 0;
    WriteAtNothing(h.file, h.offset);
    assert buf[..0] == [];
    if bufSize < blockSize {
      ok, total := WriteCounted(h, buf, stats, 0, bufSize, blockSize);
      if !ok {
        return;
      }
    }
    ghost var first := total;
    ok, total := WriteFullBlocks(h, buf, stats, total, bufSize, blockSize);
    WriteAtCompose(old(h.file), old(h.offset), buf[..first], buf[first..total]);
    assert buf[..first] + buf[first..total] == old(buf[..])[..total];
    if !ok {
      return;
    }
    assert total > 0;
    if bufSize > total {
      newSize := bufSize - total;
      assert buf[total..total + newSize] == old(buf[..])[total..bufSize];
      ShiftToHead(buf, total, newSize);
    } else if bufSize == total {
      newSize := 0;
    } else {
      assert false;
    }
  }
}
