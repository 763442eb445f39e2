/** The main loop of cifsdd: copy a stream through one buffer that is filled in
    units of `ibs` and drained in units of `obs` (client/cifsdd.c). */
module DdCopy {
  import opened Bytes
  import opened RemoteFile
  import opened DdIo

  /** How a copy ends. Completed and Interrupted both exit with status 0. */
  datatype Outcome = Completed | Interrupted | IoError

  const TWO_64: nat := 0x1_0000_0000_0000_0000

  /** Unsigned 64-bit product, as the C code computes offsets and limits. */
  function Mul64(a: nat, b: nat): nat {
    (a * b) % TWO_64
  }

  /** The whole copy seen at once: `consumed` bytes of `source` starting at
      `from` have been read, the first `written` of them are in `target` at
      `to`, and the others are `pending` in the buffer. */
  datatype Stream = Stream(source: seq<byte>, from: nat, consumed: nat,
                           original: seq<byte>, to: nat, target: seq<byte>, written: nat,
                           pending: seq<byte>)

  ghost predicate Conserved(s: Stream) {
    && s.written <= s.consumed <= Available(s.source, s.from)
    && s.target == WriteAt(s.original, s.to, ReadAt(s.source, s.from, s.written))
    && s.pending == ReadAt(s.source, s.from + s.written, s.consumed - s.written)
  }

  /** Filling the buffer from the input keeps the stream conserved. */
  lemma FillConserves(s: Stream, n: nat)
    requires Conserved(s)
    requires n <= Available(s.source, s.from + s.consumed)
    ensures Conserved(s.(consumed := s.consumed + n,
                         pending := s.pending + ReadAt(s.source, s.from + s.consumed, n)))
  {
    hide WriteAt, ReadAt;
    ReadAtCompose(s.source, s.from + s.written, s.consumed - s.written, n);
  }

  /** Draining the head of the buffer to the output keeps the stream conserved. */
  lemma FlushConserves(s: Stream, n: nat)
    requires Conserved(s)
    requires n <= |s.pending|
    ensures Conserved(s.(target := WriteAt(s.target, s.to + s.written, s.pending[..n]),
                         written := s.written + n,
                         pending := s.pending[n..]))
  {
    hide WriteAt, ReadAt;
    ReadAtSplit(s.source, s.from + s.written, s.consumed - s.written, n);
    ReadAtCompose(s.source, s.from, s.written, n);
    WriteAtCompose(s.original, s.to, ReadAt(s.source, s.from, s.written), s.pending[..n]);
  }

  /** What conservation means: the target holds a prefix of what was consumed,
      and the bytes still missing from it are the pending ones. */
  lemma ConservedMeans(s: Stream)
    requires Conserved(s)
    ensures s.written <= s.consumed <= Available(s.source, s.from)
    ensures |s.pending| == s.consumed - s.written
    ensures s.target == WriteAt(s.original, s.to, ReadAt(s.source, s.from, s.written))
  {
    hide WriteAt;
  }

  lemma ConservedAtStart(source: seq<byte>, from: nat, original: seq<byte>, to: nat)
    ensures Conserved(Stream(source, from, 0, original, to, original, 0, []))
  {
  }

  /** The stream that two handles and a buffer stand for. */
  ghost function Snapshot(ifile: InputHandle, from: nat, ofile: OutputHandle, original: seq<byte>, to: nat,
                          buf: array<byte>, size: nat): Stream
    requires from <= ifile.offset && to <= ofile.offset && size <= buf.Length
    reads ifile`offset, ofile`offset, ofile`file, buf
  {
    Stream(ifile.file, from, ifile.offset - from, original, to, ofile.file, ofile.offset - to, buf[..size])
  }

  lemma SnapshotMeans(ifile: InputHandle, from: nat, ofile: OutputHandle, original: seq<byte>, to: nat,
                      buf: array<byte>, size: nat)
    requires from <= ifile.offset && to <= ofile.offset && size <= buf.Length
    requires Conserved(Snapshot(ifile, from, ofile, original, to, buf, size))
    ensures ofile.offset - to + size == ifile.offset - from <= Available(ifile.file, from)
    ensures ofile.file == WriteAt(original, to, ReadAt(ifile.file, from, ofile.offset - to))
  {
    hide WriteAt, ReadAt, Conserved;
    ConservedMeans(Snapshot(ifile, from, ofile, original, to, buf, size));
  }

  /** One fill of the buffer, stated on the stream. */
  method Refill(ifile: InputHandle, ghost from: nat,
                ghost ofile: OutputHandle, ghost original: seq<byte>, ghost to: nat,
                buf: array<byte>, stats: Stats, size: nat, obs: nat, ibs: nat)
    returns (ok: bool, newSize: nat)
    requires 0 < ibs && 0 < obs && size < obs && obs + ibs - 1 <= buf.Length
    requires from <= ifile.offset && to <= ofile.offset && !ifile.endOfFile
    requires Conserved(Snapshot(ifile, from, ofile, original, to, buf, size))
    modifies ifile`offset, ifile`endOfFile, buf, stats`input
    ensures size <= newSize <= obs + ibs - 1 && ifile.offset == old(ifile.offset) + (newSize - size)
    ensures Conserved(Snapshot(ifile, from, ofile, original, to, buf, newSize))
    ensures ok ==> obs <= newSize || ifile.endOfFile
    ensures ifile.reliable ==> ok
    ensures ifile.endOfFile ==> Available(ifile.file, ifile.offset) == 0
    ensures newSize - size <= Available(ifile.file, old(ifile.offset))
    ensures ok && ifile.fullReads ==>
              newSize - size == Min(Available(ifile.file, old(ifile.offset)), ibs * Blocks(ibs, obs - size))
    ensures stats.input.bytes == old(stats.input.bytes) + (newSize - size)
    ensures old(Accounts(stats.input, ibs)) ==> Accounts(stats.input, ibs)
  {
    hide WriteAt, ReadAt, Conserved, Accounts;
    ghost var s := Snapshot(ifile, from, ofile, original, to, buf, size);
    ok, newSize := FillBlock(ifile, buf, stats, size, obs, ibs);
    FillConserves(s, newSize - size);
  }

  /** One drain of the buffer, stated on the stream. */
  method Drain(ghost ifile: InputHandle, ghost from: nat, ofile: OutputHandle, ghost original: seq<byte>, ghost to: nat,
               buf: array<byte>, stats: Stats, size: nat, obs: nat)
    returns (ok: bool, newSize: nat)
    requires 0 < obs && size <= buf.Length && from <= ifile.offset && to <= ofile.offset
    requires Conserved(Snapshot(ifile, from, ofile, original, to, buf, size))
    modifies ofile`offset, ofile`file, buf, stats`output
    ensures to <= ofile.offset && newSize <= size
    ensures ok ==> newSize < Min(obs, size) && Conserved(Snapshot(ifile, from, ofile, original, to, buf, newSize))
    ensures ofile.offset - to <= ifile.offset - from
    ensures ofile.file == WriteAt(original, to, ReadAt(ifile.file, from, ofile.offset - to))
    ensures size == 0 ==> !ok
    ensures ofile.reliable && size > 0 ==> ok
    ensures ok && ofile.fullWrites ==> newSize == if size < obs then 0 else size % obs
    ensures stats.output.bytes == old(stats.output.bytes) + (ofile.offset - old(ofile.offset))
    ensures old(Accounts(stats.output, obs)) ==> Accounts(stats.output, obs)
  {
    hide WriteAt, ReadAt, Conserved, Accounts;
    ghost var s := Snapshot(ifile, from, ofile, original, to, buf, size);
    ConservedMeans(s);
    ok, newSize := FlushBlock(ofile, buf, stats, size, obs);
    ghost var n := ofile.offset - old(ofile.offset);
    assert old(buf[..])[..n] == s.pending[..n];
    FlushConserves(s, n);
    ghost var s' := s.(target := ofile.file, written := ofile.offset - to, pending := s.pending[n..]);
    ConservedMeans(s');
    if ok {
      assert old(buf[..])[size - newSize..size] == s.pending[n..];
      assert s' == Snapshot(ifile, from, ofile, original, to, buf, newSize);
    }
  }

  /** At end of file: drain until the buffer is empty. */
  method DrainAll(ghost ifile: InputHandle, ghost from: nat,
                  ofile: OutputHandle, ghost original: seq<byte>, ghost to: nat,
                  buf: array<byte>, stats: Stats, size: nat, obs: nat)
    returns (ok: bool, rest: nat)
    requires 0 < obs && size <= buf.Length && from <= ifile.offset && to <= ofile.offset
    requires Conserved(Snapshot(ifile, from, ofile, original, to, buf, size))
    modifies ofile`offset, ofile`file, buf, stats`output
    ensures to <= ofile.offset && rest <= size
    ensures ofile.reliable ==> ok
    ensures ok ==> rest == 0 && Conserved(Snapshot(ifile, from, ofile, original, to, buf, 0))
    ensures ofile.offset - to <= ifile.offset - from
    ensures ofile.file == WriteAt(original, to, ReadAt(ifile.file, from, ofile.offset - to))
    ensures stats.output.bytes == old(stats.output.bytes) + (ofile.offset - old(ofile.offset))
    ensures old(Accounts(stats.output, obs)) ==> Accounts(stats.output, obs)
  {
    hide WriteAt, ReadAt, Conserved, Snapshot, Accounts;
    ok, rest := true, size;
    while rest > 0
      invariant rest <= size && to <= ofile.offset
      invariant Conserved(Snapshot(ifile, from, ofile, original, to, buf, rest))
      invariant stats.output.bytes == old(stats.output.bytes) + (ofile.offset - old(ofile.offset))
      invariant old(Accounts(stats.output, obs)) ==> Accounts(stats.output, obs)
    {
      ok, rest := Drain(ifile, from, ofile, original, to, buf, stats, rest, obs);
      if !ok {
        return;
      }
    }
    ok := true;
    SnapshotMeans(ifile, from, ofile, original, to, buf, rest);
  }

  /** The setting in which what a copy reads is determined by the file and the
      count: full-size transfers. */
  ghost predicate Exact(ifile: InputHandle, ofile: OutputHandle) {
    ifile.fullReads && ofile.fullWrites
  }

  /** What is read of an endless file before the m-th output block can be written:
      as many input blocks as it takes. */
  function Reach(ibs: nat, obs: nat, m: nat): nat
    requires 0 < ibs
  {
    ibs * Blocks(ibs, obs * m)
  }

  /** The first output block for which the limit has been read: the first one that
      goes beyond the last input block but one. */
  function Rounds(ibs: nat, obs: nat, limit: nat): nat
    requires 0 < ibs && 0 < obs
  {
    Blocks(obs, ibs * (Blocks(ibs, limit) - 1) + 1)
  }

  /** What a copy reads of an endless file. */
  function MaxRead(ibs: nat, obs: nat, count: nat): nat
    requires 0 < ibs && 0 < obs
  {
    Reach(ibs, obs, Rounds(ibs, obs, Mul64(ibs, count)))
  }

  /** It takes `k` blocks or more exactly if `k - 1` blocks are not enough. */
  lemma BlocksBeyond(bs: nat, n: nat, k: nat)
    requires 0 < bs && 0 < n && 1 <= k
    ensures k <= Blocks(bs, n) <==> bs * (k - 1) < n
  {
    hide Blocks;
    var blocks := Blocks(bs, n);
    MoreBlocks(bs, k - 1, blocks - 1);
    MoreBlocks(bs, blocks, k - 1);
    assert blocks == 1 && k == 1 ==> bs * (k - 1) == 0;
  }

  /** The limit is reached in round `Rounds`, and in no earlier one. */
  lemma ReachBeyond(ibs: nat, obs: nat, limit: nat, m: nat)
    requires 0 < ibs && 0 < obs && 1 <= m
    ensures limit <= Reach(ibs, obs, m) <==> Rounds(ibs, obs, limit) <= m
  {
    hide Blocks;
    var b, k := Blocks(ibs, limit), Blocks(ibs, obs * m);
    var x := ibs * (b - 1) + 1;
    assert obs * m >= m by { MoreBlocks(m, 1, obs); }
    BlocksBeyond(ibs, obs * m, b);
    BlocksBeyond(obs, x, m + 1);
    MoreBlocks(ibs, b, k);
    MoreBlocks(ibs, k, b - 1);
    assert b == 1 ==> ibs * (b - 1) == 0;
  }

  /** Input blocks that hold an output block have read what it takes. */
  lemma ReachIsLeast(ibs: nat, obs: nat, m: nat, k: nat)
    requires 0 < ibs && 1 <= k && obs * m <= ibs * k
    ensures Reach(ibs, obs, m) <= ibs * k
  {
    hide Blocks;
    var blocks := Blocks(ibs, obs * m);
    MoreBlocks(ibs, k, blocks - 1);
    MoreBlocks(ibs, blocks, k);
  }

  lemma ReachMonotone(ibs: nat, obs: nat, m: nat, m': nat)
    requires 0 < ibs && m <= m'
    ensures Reach(ibs, obs, m) <= Reach(ibs, obs, m')
  {
    hide Blocks;
    MoreBlocks(obs, m, m');
    ReachIsLeast(ibs, obs, m, Blocks(ibs, obs * m'));
  }

  /** A fill from a loop head reads up to what the next output block takes. */
  lemma NextReach(ibs: nat, obs: nat, k: nat, q: nat, size: nat)
    requires 0 < ibs && ibs * k == obs * q + size && size < obs
    ensures ibs * k + ibs * Blocks(ibs, obs - size) == Reach(ibs, obs, q + 1)
  {
    hide Blocks;
    var j := Blocks(ibs, obs - size);
    assert obs * (q + 1) == ibs * k + (obs - size);
    assert ibs * (k + j) == ibs * k + ibs * j;
    assert ibs * (k + j - 1) == ibs * k + ibs * (j - 1);
    assert j == 1 ==> ibs * (j - 1) == 0;
    BlocksAre(ibs, obs * (q + 1), k + j);
  }

  /** How far a copy with byte limit `limit` can have read, given that it goes
      on reading only below the limit and overshoots by less than one fill. */
  ghost predicate WithinLimit(consumed: int, limit: nat, ibs: nat, obs: nat, endOfFile: bool, unread: nat) {
    && 0 <= consumed < limit + obs + ibs
    && (endOfFile ==> unread == 0 || limit <= consumed)
    && (!endOfFile ==> consumed < limit || consumed == 0)
  }

  lemma WithinLimitStep(consumed: int, limit: nat, ibs: nat, obs: nat, unread: nat,
                        n: nat, endOfFile: bool, unread': nat)
    requires WithinLimit(consumed, limit, ibs, obs, false, unread)
    requires n < obs + ibs
    requires endOfFile ==> unread' == 0
    ensures WithinLimit(consumed + n, limit, ibs, obs, endOfFile || limit <= consumed + n, unread')
  {
  }

  /** Whole input blocks have been read, and the whole output blocks among them
      written, with `size` bytes left over; the limit has not been reached. */
  ghost predicate OnBlocks(consumed: int, ibs: nat, obs: nat, rounds: nat, size: nat) {
    exists k: nat, q: nat :: consumed == ibs * k && ibs * k == obs * q + size && q < rounds
  }

  /** The invariant of the exact setting: the copy is on its way in whole blocks,
      or it has read the whole file, or it has reached the limit. */
  ghost predicate OnTheWay(consumed: int, ibs: nat, obs: nat, limit: nat, endOfFile: bool, unread: nat, size: nat)
    requires 0 < ibs && 0 < obs
  {
    var rounds := Rounds(ibs, obs, limit);
    var most := Reach(ibs, obs, rounds);
    if endOfFile then consumed == Min(consumed + unread, most)
    else (unread == 0 && consumed <= most) || OnBlocks(consumed, ibs, obs, rounds, size)
  }

  lemma OnTheWayAtStart(ibs: nat, obs: nat, limit: nat, unread: nat)
    requires 0 < ibs && 0 < obs
    ensures OnTheWay(0, ibs, obs, limit, false, unread, 0)
  {
    assert 0 == ibs * 0 && ibs * 0 == obs * 0 + 0;
    assert OnBlocks(0, ibs, obs, Rounds(ibs, obs, limit), 0);
  }

  /** One round that reads a whole fill. */
  lemma FullRound(consumed: int, ibs: nat, obs: nat, limit: nat, size: nat, newSize: nat)
    requires 0 < ibs && 0 < obs && size < obs
    requires OnBlocks(consumed, ibs, obs, Rounds(ibs, obs, limit), size)
    requires newSize == size + ibs * Blocks(ibs, obs - size)
    ensures var rounds, next := Rounds(ibs, obs, limit), consumed + (newSize - size);
            && next <= Reach(ibs, obs, rounds)
            && (limit <= next ==> next == Reach(ibs, obs, rounds))
            && (next < limit ==> OnBlocks(next, ibs, obs, rounds, newSize % obs))
  {
    hide Blocks, Reach, Rounds;
    var rounds, next := Rounds(ibs, obs, limit), consumed + (newSize - size);
    var k: nat, q: nat :| consumed == ibs * k && ibs * k == obs * q + size && q < rounds;
    NextReach(ibs, obs, k, q, size);
    ReachMonotone(ibs, obs, q + 1, rounds);
    ReachBeyond(ibs, obs, limit, q + 1);
    if next < limit {
      ReachBeyond(ibs, obs, limit, rounds);
      FullRoundGoesOn(ibs, obs, rounds, k, Blocks(ibs, obs - size), q, size, newSize);
    }
  }

  lemma FullRoundGoesOn(ibs: nat, obs: nat, rounds: nat, k: nat, j: nat, q: nat, size: nat, newSize: nat)
    requires 0 < ibs && 0 < obs && 1 <= j && 1 <= rounds
    requires ibs * k == obs * q + size && newSize == size + ibs * j
    requires ibs * k + ibs * j < Reach(ibs, obs, rounds)
    ensures OnBlocks(ibs * k + ibs * j, ibs, obs, rounds, newSize % obs)
  {
    hide Reach;
    var d, r := newSize / obs, newSize % obs;
    Division(newSize, obs);
    assert ibs * (k + j) == ibs * k + ibs * j;
    assert obs * (q + d) == obs * q + obs * d;
    MoreBlocks(obs, rounds, q + d);
    if obs * rounds <= ibs * (k + j) {
      ReachIsLeast(ibs, obs, rounds, k + j);
    }
    assert ibs * (k + j) == obs * (q + d) + r && q + d < rounds;
  }

  /** One round, whatever it reads. */
  lemma OnTheWayStep(consumed: int, ibs: nat, obs: nat, limit: nat, unread: nat, size: nat,
                     newSize: nat, endOfFile: bool, rest: nat)
    requires 0 < ibs && 0 < obs && 0 <= consumed && size < obs
    requires OnTheWay(consumed, ibs, obs, limit, false, unread, size)
    requires newSize - size == Min(unread, ibs * Blocks(ibs, obs - size))
    requires newSize < obs ==> endOfFile
    requires endOfFile ==> unread == newSize - size
    requires obs <= newSize ==> rest == newSize % obs
    ensures OnTheWay(consumed + (newSize - size), ibs, obs, limit,
                     endOfFile || limit <= consumed + (newSize - size), unread - (newSize - size), rest)
  {
    hide Blocks, Reach, Rounds, OnBlocks;
    var rounds, n := Rounds(ibs, obs, limit), newSize - size;
    var full := size + ibs * Blocks(ibs, obs - size);
    if OnBlocks(consumed, ibs, obs, rounds, size) {
      FullRound(consumed, ibs, obs, limit, size, full);
    }
  }

  /** A copy that stopped at end of file has read all there is or reached its
      limit. */
  lemma ReadSoFar(consumed: int, limit: nat, ibs: nat, obs: nat, endOfFile: bool, unread: nat)
    requires WithinLimit(consumed, limit, ibs, obs, endOfFile, unread)
    ensures consumed < limit + obs + ibs
    ensures endOfFile ==> unread == 0 || limit <= consumed
  {
  }

  /** A multiple of the output block lies within the last input block of the count. */
  ghost predicate EndsInLastBlock(ibs: nat, obs: nat, count: nat) {
    exists m: nat :: ibs * (count - 1) < obs * m <= ibs * count
  }

  /** The count says what an endless file is read to exactly when it is not zero,
      its product with the block size does not overflow, and some output block
      ends within the last input block that it asks for. */
  lemma MaxReadIsCount(ibs: nat, obs: nat, count: nat)
    requires 0 < ibs && 0 < obs && ibs + obs <= TWO_64
    ensures MaxRead(ibs, obs, count) == ibs * count <==>
            1 <= count && ibs * count < TWO_64 && EndsInLastBlock(ibs, obs, count)
  {
    hide Blocks;
    var total := ibs * count;
    var limit := Mul64(ibs, count);
    ReachBelow(ibs, obs, limit);
    if total < TWO_64 {
      Unwrapped(total);
      if 1 <= count {
        assert ibs * (count - 1) == total - ibs;
        BlocksAre(ibs, limit, count);
        LastBlock(ibs, obs, count);
      } else {
        assert total == 0;
      }
    } else {
      Wrapped(total);
    }
  }

  /** How far the limit can be exceeded. */
  lemma ReachBelow(ibs: nat, obs: nat, limit: nat)
    requires 0 < ibs && 0 < obs
    ensures 0 < Reach(ibs, obs, Rounds(ibs, obs, limit)) < limit + obs + ibs
  {
    hide Blocks;
    var b, rounds := Blocks(ibs, limit), Rounds(ibs, obs, limit);
    var k := Blocks(ibs, obs * rounds);
    assert b == 1 ==> ibs * (b - 1) == 0;
    assert obs * (rounds - 1) == obs * rounds - obs;
    assert ibs * (k - 1) == ibs * k - ibs;
    MoreBlocks(ibs, 1, k);
    assert k == 1 ==> ibs * k == ibs;
    assert rounds == 1 ==> obs * rounds == obs;
  }

  /** For a limit of whole input blocks: it is read exactly if an output block
      ends in the last of them. */
  lemma LastBlock(ibs: nat, obs: nat, count: nat)
    requires 0 < ibs && 0 < obs && 1 <= count && Blocks(ibs, ibs * count) == count
    ensures Reach(ibs, obs, Rounds(ibs, obs, ibs * count)) == ibs * count <==> EndsInLastBlock(ibs, obs, count)
  {
    hide Blocks;
    var rounds := Rounds(ibs, obs, ibs * count);
    assert rounds == Blocks(obs, ibs * (count - 1) + 1);
    var k := Blocks(ibs, obs * rounds);
    if EndsInLastBlock(ibs, obs, count) {
      var m: nat :| ibs * (count - 1) < obs * m <= ibs * count;
      assert m == 0 ==> obs * m == 0;
      MoreBlocks(obs, m, rounds - 1);
      MoreBlocks(obs, rounds, m);
      assert count == 1 ==> ibs * (count - 1) == 0;
      BlocksAre(ibs, obs * rounds, count);
    }
    if ibs * k == ibs * count {
      assert ibs * (count - 1) < obs * rounds <= ibs * count;
    }
  }

  lemma Unwrapped(n: nat)
    requires n < TWO_64
    ensures n % TWO_64 == n
  {
  }

  lemma Wrapped(n: nat)
    requires TWO_64 <= n
    ensures n % TWO_64 <= n - TWO_64
  {
  }

  /** A copy in the exact setting reads what the count asks for, exactly when an
      endless file would be read to there, or the file ends before that makes a
      difference. */
  lemma CountMet(available: nat, ibs: nat, obs: nat, count: nat)
    requires 0 < ibs && 0 < obs && ibs + obs <= TWO_64
    ensures Min(available, MaxRead(ibs, obs, count)) == Min(available, ibs * count) <==>
            || (1 <= count && ibs * count < TWO_64 && EndsInLastBlock(ibs, obs, count))
            || available <= Min(MaxRead(ibs, obs, count), ibs * count)
  {
    MaxReadIsCount(ibs, obs, count);
    hide MaxRead;
  }

  /** What holds of a copy at every moment, also after an I/O error: the output
      file holds a prefix of the consumed input and nothing else, the input
      stays within its limit, and the statistics agree with both. */
  ghost predicate Faithful(ifile: InputHandle, from: nat, ofile: OutputHandle, original: seq<byte>, to: nat,
                           stats: Stats, ibs: nat, obs: nat, count: nat)
    reads ifile, ofile, stats
  {
    && from <= ifile.offset && to <= ofile.offset
    && ofile.offset - to <= ifile.offset - from <= Available(ifile.file, from)
    && ofile.file == WriteAt(original, to, ReadAt(ifile.file, from, ofile.offset - to))
    && ifile.offset - from < Mul64(ibs, count) + obs + ibs
    && stats.input.bytes == ifile.offset - from && stats.output.bytes == ofile.offset - to
    && Accounts(stats.input, ibs) && Accounts(stats.output, obs)
  }

  /** The invariant of the main loop, at its head. */
  ghost predicate Copying(ifile: InputHandle, from: nat, ofile: OutputHandle, original: seq<byte>, to: nat,
                          buf: array<byte>, size: nat, stats: Stats, ibs: nat, obs: nat, count: nat)
    reads ifile, ofile, buf, stats
  {
    && size < obs && 0 < ibs && obs + ibs <= buf.Length
    && from <= ifile.offset && to <= ofile.offset
    && Conserved(Snapshot(ifile, from, ofile, original, to, buf, size))
    && stats.input.bytes == ifile.offset - from && stats.output.bytes == ofile.offset - to
    && Accounts(stats.input, ibs) && Accounts(stats.output, obs)
    && WithinLimit(ifile.offset - from, Mul64(ibs, count), ibs, obs,
                   ifile.endOfFile, Available(ifile.file, ifile.offset))
    && (Exact(ifile, ofile) ==>
          OnTheWay(ifile.offset - from, ibs, obs, Mul64(ibs, count),
                   ifile.endOfFile, Available(ifile.file, ifile.offset), size))
  }

  /** The loop invariant of the copy before the first byte is read. */
  lemma StartOfCopy(ifile: InputHandle, ofile: OutputHandle, buf: array<byte>, stats: Stats,
                    ibs: nat, obs: nat, count: nat)
    requires 0 < ibs && 0 < obs && obs + ibs <= buf.Length && !ifile.endOfFile
    requires stats.input == SideStats(0, 0, 0) && stats.output == SideStats(0, 0, 0)
    ensures Copying(ifile, ifile.offset, ofile, ofile.file, ofile.offset, buf, 0, stats, ibs, obs, count)
  {
    hide WriteAt, ReadAt, Conserved, Mul64;
    ConservedAtStart(ifile.file, ifile.offset, ofile.file, ofile.offset);
    assert buf[..0] == [];
    OnTheWayAtStart(ibs, obs, Mul64(ibs, count), Available(ifile.file, ifile.offset));
    hide OnTheWay;
  }

  lemma CopyingConserved(ifile: InputHandle, from: nat, ofile: OutputHandle, original: seq<byte>, to: nat,
                         buf: array<byte>, size: nat, stats: Stats, ibs: nat, obs: nat, count: nat)
    requires Copying(ifile, from, ofile, original, to, buf, size, stats, ibs, obs, count)
    ensures size <= buf.Length && from <= ifile.offset && to <= ofile.offset
    ensures Conserved(Snapshot(ifile, from, ofile, original, to, buf, size))
  {
    hide Conserved, Snapshot;
  }

  lemma CopyingMeans(ifile: InputHandle, from: nat, ofile: OutputHandle, original: seq<byte>, to: nat,
                     buf: array<byte>, size: nat, stats: Stats, ibs: nat, obs: nat, count: nat)
    requires Copying(ifile, from, ofile, original, to, buf, size, stats, ibs, obs, count)
    ensures Faithful(ifile, from, ofile, original, to, stats, ibs, obs, count)
    ensures ofile.offset - to + size == ifile.offset - from && size < obs
    ensures ifile.endOfFile ==>
              || ifile.offset - from == Available(ifile.file, from)
              || ifile.offset - from >= Mul64(ibs, count)
    ensures Exact(ifile, ofile) && ifile.endOfFile ==>
              ifile.offset - from == Min(Available(ifile.file, from), MaxRead(ibs, obs, count))
  {
    hide WriteAt, ReadAt, Conserved, Accounts, Snapshot, Reach, Rounds, Mul64;
    SnapshotMeans(ifile, from, ofile, original, to, buf, size);
  }

  /** One round of the main loop: fill, apply the count limit, drain. */
  method CopyRound(ifile: InputHandle, ghost from: nat, ofile: OutputHandle, ghost original: seq<byte>, ghost to: nat,
                   buf: array<byte>, size: nat, stats: Stats, ibs: nat, obs: nat, count: nat)
    returns (ok: bool, newSize: nat)
    requires 0 < ibs && 0 < obs && !ifile.endOfFile
    requires Copying(ifile, from, ofile, original, to, buf, size, stats, ibs, obs, count)
    modifies ifile`offset, ifile`endOfFile, ofile`offset, ofile`file, buf, stats
    ensures Faithful(ifile, from, ofile, original, to, stats, ibs, obs, count)
    ensures ifile.reliable && ofile.reliable ==> ok
    ensures ok ==> Copying(ifile, from, ofile, original, to, buf, newSize, stats, ibs, obs, count)
    ensures ok ==> Available(ifile.file, ifile.offset) < old(Available(ifile.file, ifile.offset)) || ifile.endOfFile
    ensures Available(ifile.file, ifile.offset) <= old(Available(ifile.file, ifile.offset))
  {
    hide WriteAt, ReadAt, Mul64, Conserved, Snapshot, Accounts, WithinLimit, OnTheWay, Blocks;
    ghost var consumed, unread := ifile.offset - from, Available(ifile.file, ifile.offset);
    ghost var exact, limit := Exact(ifile, ofile), Mul64(ibs, count);
    ok, newSize := Refill(ifile, from, ofile, original, to, buf, stats, size, obs, ibs);
    SnapshotMeans(ifile, from, ofile, original, to, buf, newSize);
    WithinLimitStep(consumed, limit, ibs, obs, unread, newSize - size,
                    ifile.endOfFile, Available(ifile.file, ifile.offset));
    ReadSoFar(ifile.offset - from, limit, ibs, obs,
              ifile.endOfFile || limit <= ifile.offset - from, Available(ifile.file, ifile.offset));
    if !ok {
      return;
    }
    assert newSize == 0 ==> ifile.endOfFile;
    ghost var full, atEnd := newSize, ifile.endOfFile;
    if stats.input.bytes >= Mul64(ibs, count) {
      ifile.endOfFile := true;
    }
    if newSize > 0 {
      ok, newSize := Drain(ifile, from, ofile, original, to, buf, stats, newSize, obs);
    }
    if exact && ok {
      OnTheWayStep(consumed, ibs, obs, limit, unread, size, full, atEnd, newSize);
    }
  }

  /** copy_files. `sigint(k)` says whether an interrupt is pending when the loop
      is entered for the k-th time; `rounds` is how often it was entered. */
  method CopyFiles(ifile: InputHandle, ofile: OutputHandle, stats: Stats, sigint: nat -> bool,
                   ibs: nat, obs: nat, count: nat, skip: nat, seek: nat)
    returns (outcome: Outcome, dataSize: nat, rounds: nat)
    requires 0 < ibs && 0 < obs
    requires !ifile.endOfFile
    requires stats.input == SideStats(0, 0, 0) && stats.output == SideStats(0, 0, 0)
    modifies ifile, ofile, stats
    ensures Mul64(skip, ibs) <= ifile.offset && Mul64(seek, obs) <= ofile.offset
    // in every outcome the output file holds a prefix of the consumed input, and nothing else
    ensures ofile.offset - Mul64(seek, obs) <= ifile.offset - Mul64(skip, ibs)
                                            <= Available(ifile.file, Mul64(skip, ibs))
    ensures ofile.file == WriteAt(old(ofile.file), Mul64(seek, obs),
                                  ReadAt(ifile.file, Mul64(skip, ibs), ofile.offset - Mul64(seek, obs)))
    // a completed run has written all it read, and has read all there is or reached the count
    ensures outcome == Completed ==>
              && dataSize == 0
              && ofile.offset - Mul64(seek, obs) == ifile.offset - Mul64(skip, ibs)
              && (|| ifile.offset - Mul64(skip, ibs) == Available(ifile.file, Mul64(skip, ibs))
                  || ifile.offset - Mul64(skip, ibs) >= Mul64(ibs, count))
    // an interrupted run is behind by less than one output block
    ensures outcome == Interrupted ==>
              dataSize == (ifile.offset - Mul64(skip, ibs)) - (ofile.offset - Mul64(seek, obs)) < obs
    // and neither error nor interrupt comes from nowhere
    ensures ifile.reliable && ofile.reliable ==> outcome != IoError
    // a pending interrupt ends the copy the next time that the loop is entered, and nothing else does so
    ensures 0 < rounds && (outcome == Interrupted <==> sigint(rounds - 1))
    ensures forall k :: 0 <= k < rounds - 1 ==> !sigint(k)
    ensures sigint(0) ==>
              && outcome == Interrupted && dataSize == 0 && ofile.file == old(ofile.file)
              && ifile.offset == Mul64(skip, ibs) && ofile.offset == Mul64(seek, obs)
              && stats.input == old(stats.input) && stats.output == old(stats.output)
    // the count limit
    ensures ifile.offset - Mul64(skip, ibs) < Mul64(ibs, count) + obs + ibs
    ensures Exact(ifile, ofile) && outcome == Completed ==>
              ifile.offset - Mul64(skip, ibs) == Min(Available(ifile.file, Mul64(skip, ibs)), MaxRead(ibs, obs, count))
    ensures Exact(ifile, ofile) && outcome == Completed && ibs + obs <= TWO_64 ==>
              (ifile.offset - Mul64(skip, ibs) == Min(Available(ifile.file, Mul64(skip, ibs)), ibs * count) <==>
               || (1 <= count && ibs * count < TWO_64 && EndsInLastBlock(ibs, obs, count))
               || Available(ifile.file, Mul64(skip, ibs)) <= Min(MaxRead(ibs, obs, count), ibs * count))
    // statistics
    ensures stats.input.bytes == ifile.offset - Mul64(skip, ibs)
    ensures stats.output.bytes == ofile.offset - Mul64(seek, obs)
    ensures stats.input.fullBlocks * ibs + stats.input.partialBlocks <= stats.input.bytes
    ensures stats.input.bytes <= stats.input.fullBlocks * ibs + stats.input.partialBlocks * (ibs - 1)
    ensures stats.output.fullBlocks * obs + stats.output.partialBlocks <= stats.output.bytes
    ensures stats.output.bytes <= stats.output.fullBlocks * obs + stats.output.partialBlocks * (obs - 1)
  {
    hide WriteAt, ReadAt, Mul64, Conserved, Snapshot, Accounts, Copying, MaxRead, EndsInLastBlock;
    var iobuf := new byte[2 * Max(ibs, obs)];
    ifile.Seek(Mul64(skip, ibs));
    ofile.Seek(Mul64(seek, obs));
    ghost var from, to, original := ifile.offset, ofile.offset, ofile.file;
    StartOfCopy(ifile, ofile, iobuf, stats, ibs, obs, count);
    outcome, dataSize, rounds := CopyLoop(ifile, from, ofile, original, to, iobuf, stats, sigint, ibs, obs, count);
    if ibs + obs <= TWO_64 {
      CountMet(Available(ifile.file, from), ibs, obs, count);
    }
    AccountsMean(stats.input, ibs);
    AccountsMean(stats.output, obs);
  }

  lemma AccountsMean(s: SideStats, bs: nat)
    requires Accounts(s, bs)
    ensures s.fullBlocks * bs + s.partialBlocks <= s.bytes
    ensures s.bytes <= s.fullBlocks * bs + s.partialBlocks * (bs - 1)
  {
  }

  /** The main loop. */
  method CopyLoop(ifile: InputHandle, ghost from: nat, ofile: OutputHandle, ghost original: seq<byte>, ghost to: nat,
                  iobuf: array<byte>, stats: Stats, sigint: nat -> bool, ibs: nat, obs: nat, count: nat)
    returns (outcome: Outcome, dataSize: nat, rounds: nat)
    requires 0 < ibs && 0 < obs
    requires Copying(ifile, from, ofile, original, to, iobuf, 0, stats, ibs, obs, count)
    modifies ifile`offset, ifile`endOfFile, ofile`offset, ofile`file, iobuf, stats
    ensures Faithful(ifile, from, ofile, original, to, stats, ibs, obs, count)
    ensures outcome == Completed ==>
              && dataSize == 0 && ofile.offset - to == ifile.offset - from
              && (|| ifile.offset - from == Available(ifile.file, from)
                  || ifile.offset - from >= Mul64(ibs, count))
              && (Exact(ifile, ofile) ==>
                    ifile.offset - from == Min(Available(ifile.file, from), MaxRead(ibs, obs, count)))
    ensures outcome == Interrupted ==> dataSize == (ifile.offset - from) - (ofile.offset - to) < obs
    ensures ifile.reliable && ofile.reliable ==> outcome != IoError
    ensures 0 < rounds && (outcome == Interrupted <==> sigint(rounds - 1))
    ensures forall k :: 0 <= k < rounds - 1 ==> !sigint(k)
    ensures sigint(0) ==>
              && outcome == Interrupted && dataSize == 0
              && ofile.file == old(ofile.file) && ifile.offset == old(ifile.offset) && ofile.offset == old(ofile.offset)
              && stats.input == old(stats.input) && stats.output == old(stats.output)
  {
    hide WriteAt, ReadAt, Mul64, Conserved, Snapshot, Accounts, Copying, MaxRead;
    dataSize := 0;
    rounds := 0;
    while true
      invariant forall k :: 0 <= k < rounds ==> !sigint(k)
      invariant rounds == 0 ==>
                  && dataSize == 0 && ofile.file == old(ofile.file)
                  && ifile.offset == old(ifile.offset) && ofile.offset == old(ofile.offset)
                  && stats.input == old(stats.input) && stats.output == old(stats.output)
      invariant Copying(ifile, from, ofile, original, to, iobuf, dataSize, stats, ibs, obs, count)
      decreases Available(ifile.file, ifile.offset), if ifile.endOfFile then 0 else 1
    {
      CopyingMeans(ifile, from, ofile, original, to, iobuf, dataSize, stats, ibs, obs, count);
      rounds := rounds + 1;
      if sigint(rounds - 1) {
        outcome := Interrupted;
        return;
      }
      var ok: bool;
      if ifile.endOfFile {
        CopyingConserved(ifile, from, ofile, original, to, iobuf, dataSize, stats, ibs, obs, count);
        ok, dataSize := DrainAll(ifile, from, ofile, original, to, iobuf, stats, dataSize, obs);
        if !ok {
          outcome := IoError;
          return;
        }
        SnapshotMeans(ifile, from, ofile, original, to, iobuf, dataSize);
        outcome := Completed;
        return;
      }
      ok, dataSize := CopyRound(ifile, from, ofile, original, to, iobuf, dataSize, stats, ibs, obs, count);
      if !ok {
        outcome := IoError;
        return;
      }
    }
  }

  // ---- copies under unusual counts ----

  /** Copy a file to a new one with full-size transfers and no interrupt. */
  method CopyWhole(file: seq<byte>, ibs: nat, obs: nat, count: nat) returns (copy: seq<byte>)
    requires 0 < ibs && 0 < obs && ibs + obs <= TWO_64
    ensures copy == file[..Min(|file|, MaxRead(ibs, obs, count))]
    ensures copy == file[..Min(|file|, ibs * count)] <==>
            || (1 <= count && ibs * count < TWO_64 && EndsInLastBlock(ibs, obs, count))
            || |file| <= Min(MaxRead(ibs, obs, count), ibs * count)
  {
    hide MaxRead, EndsInLastBlock, WriteAt, ReadAt, Accounts;
    var ifile := new InputHandle(file, true, true);
    var ofile := new OutputHandle([], true, true);
    var stats := new Stats();
    var outcome, dataSize, rounds := CopyFiles(ifile, ofile, stats, _ => false, ibs, obs, count, 0, 0);
    StartOfFile(ibs);
    StartOfFile(obs);
    copy := ofile.file;
    WholePrefix(file, ofile.offset);
    CountMet(|file|, ibs, obs, count);
    assert |file[..Min(|file|, ibs * count)]| == Min(|file|, ibs * count);
  }

  lemma StartOfFile(bs: nat)
    ensures Mul64(0, bs) == 0
  {
  }

  lemma WholePrefix(file: seq<byte>, n: nat)
    requires n <= |file|
    ensures WriteAt([], 0, ReadAt(file, 0, n)) == file[..n]
  {
  }

  /** With input blocks that are whole output blocks the count is exact, unless it
      is zero or overflows. */
  lemma ExactWhenDivisible(ibs: nat, obs: nat, count: nat, n: nat)
    requires 0 < ibs == obs * n && 1 <= count
    ensures EndsInLastBlock(ibs, obs, count)
  {
    assert ibs * (count - 1) == ibs * count - ibs;
    assert obs * (n * count) == ibs * count;
    assert ibs * (count - 1) < obs * (n * count) <= ibs * count;
  }

  /** A count of zero copies what the first output block takes all the same. */
  lemma CountZero(ibs: nat, obs: nat)
    requires 0 < ibs && 0 < obs
    ensures MaxRead(ibs, obs, 0) == Reach(ibs, obs, 1)
  {
    hide Blocks;
    BlocksAre(ibs, 0, 1);
    assert ibs * 0 == 0;
    BlocksAre(obs, 1, 1);
  }

  /** Without a count, the default of 2^64 - 1 overflows with any block size above
      one; a copy in blocks of 4096 is still whole up to 2^64 - 4096 bytes. */
  lemma CountDefault()
    ensures MaxRead(4096, 4096, TWO_64 - 1) == TWO_64 - 4096
  {
    hide Blocks;
    assert 4096 * (TWO_64 - 1) == TWO_64 * 4095 + (TWO_64 - 4096);
    assert Mul64(4096, TWO_64 - 1) == TWO_64 - 4096;
    var k := 0xF_FFFF_FFFF_FFFF;
    BlocksAre(4096, TWO_64 - 4096, k);
    BlocksAre(4096, 4096 * (k - 1) + 1, k);
    BlocksAre(4096, 4096 * k, k);
  }

  /** Runs that do not read what the count asks for: one block instead of 2^64
      bytes, one block instead of none, and eight blocks instead of one. */
  method OddCopies(file: seq<byte>) returns (wrapped: seq<byte>, zero: seq<byte>, more: seq<byte>)
    requires 4096 < |file|
    ensures wrapped == file[..4096] && zero == file[..4096] && more == file[..4096]
  {
    SmallCounts();
    hide MaxRead, EndsInLastBlock;
    wrapped := CopyWhole(file, 4096, 4096, 0x10_0000_0000_0000);
    zero := CopyWhole(file, 4096, 4096, 0);
    more := CopyWhole(file, 512, 4096, 1);
  }

  lemma SmallCounts()
    ensures MaxRead(4096, 4096, 0x10_0000_0000_0000) == MaxRead(4096, 4096, 0) == 4096
    ensures MaxRead(512, 4096, 1) == 4096
  {
    hide Blocks;
    CountZero(4096, 4096);
    assert Mul64(4096, 0x10_0000_0000_0000) == Mul64(4096, 0);
    BlocksAre(4096, 4096, 1);
    BlocksAre(512, 512, 1);
    BlocksAre(4096, 1, 1);
    BlocksAre(512, 4096, 8);
  }
}
