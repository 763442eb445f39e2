/** Contents of a remote file as a byte string, with the one-shot read and
    write that every chunked transfer loop has to amount to. */
module RemoteFile {
  import opened Bytes

  function Min(a: int, b: int): int {
    if a <= b then a else b
  }

  function Max(a: int, b: int): int {
    if a <= b then b else a
  }

  /** How many bytes of `file` lie at or after `offset`. */
  function Available(file: seq<byte>, offset: nat): nat {
    if offset <= |file| then |file| - offset else 0
  }

  /** The bytes that one read of `count` bytes at `offset` delivers. */
  function ReadAt(file: seq<byte>, offset: nat, count: nat): (data: seq<byte>)
    ensures |data| == Min(count, Available(file, offset))
  {
    var n := Min(count, Available(file, offset));
    if n == 0 then [] else file[offset..offset + n]
  }

  /** `file` extended with zeros, if needed, to at least `size` bytes. */
  function Padded(file: seq<byte>, size: nat): (padded: seq<byte>)
    ensures |padded| == Max(|file|, size)
    ensures file <= padded
  {
    if size <= |file| then file else file + seq(size - |file|, _ => 0 as byte)
  }

  /** `file` after one write of `data` at `offset`. A write of no bytes changes
      nothing; a write beyond the end leaves a hole of zeros. */
  function WriteAt(file: seq<byte>, offset: nat, data: seq<byte>): (written: seq<byte>) {
    if data == [] then file else
    var padded := Padded(file, offset + |data|);
    padded[..offset] + data + padded[offset + |data|..]
  }

  /** A write changes exactly the bytes it covers, and nothing else but the
      hole that it may have to fill. */
  lemma WriteAtBytes(file: seq<byte>, offset: nat, data: seq<byte>)
    requires data != []
    ensures var w := WriteAt(file, offset, data);
            && |w| == Max(|file|, offset + |data|)
            && w[offset..offset + |data|] == data
            && (forall i :: 0 <= i < |file| && !(offset <= i < offset + |data|) ==> w[i] == file[i])
            && (forall i :: |file| <= i < offset ==> w[i] == 0)
  {
  }

  lemma WriteAtNothing(file: seq<byte>, offset: nat)
    ensures WriteAt(file, offset, []) == file
  {
  }

  /** Two writes back to back are one write. */
  lemma WriteAtCompose(file: seq<byte>, offset: nat, a: seq<byte>, b: seq<byte>)
    ensures WriteAt(WriteAt(file, offset, a), offset + |a|, b) == WriteAt(file, offset, a + b)
  {
    if a == [] {
      assert a + b == b;
    } else if b == [] {
      assert a + b == a;
    } else {
      WriteAtBytes(file, offset, a);
      WriteAtBytes(WriteAt(file, offset, a), offset + |a|, b);
      WriteAtBytes(file, offset, a + b);
      var two, one := WriteAt(WriteAt(file, offset, a), offset + |a|, b), WriteAt(file, offset, a + b);
      forall i | 0 <= i < |one|
        ensures one[i] == two[i]
      {
        if offset <= i < offset + |a| {
          assert two[i] == WriteAt(file, offset, a)[offset..offset + |a|][i - offset];
          assert one[i] == one[offset..offset + |a + b|][i - offset];
        } else if offset + |a| <= i < offset + |a| + |b| {
          assert two[i] == two[offset + |a|..offset + |a| + |b|][i - offset - |a|];
          assert one[i] == one[offset..offset + |a + b|][i - offset];
        }
      }
    }
  }

  /** What was written is what is read back. */
  lemma ReadBack(file: seq<byte>, offset: nat, data: seq<byte>)
    ensures ReadAt(WriteAt(file, offset, data), offset, |data|) == data
  {
    if data != [] {
      WriteAtBytes(file, offset, data);
    }
  }

  lemma ReadAtNothing(file: seq<byte>, offset: nat)
    ensures ReadAt(file, offset, 0) == []
  {
  }

  /** Two reads back to back are one read, provided the first one was not cut
      short by the end of the file. */
  lemma ReadAtCompose(file: seq<byte>, offset: nat, a: nat, b: nat)
    requires a <= Available(file, offset)
    ensures ReadAt(file, offset, a) + ReadAt(file, offset + a, b) == ReadAt(file, offset, a + b)
  {
  }

  /** A read can be taken apart at any point it reached. */
  lemma ReadAtSplit(file: seq<byte>, offset: nat, n: nat, k: nat)
    requires k <= n <= Available(file, offset)
    ensures |ReadAt(file, offset, n)| == n
    ensures ReadAt(file, offset, n)[..k] == ReadAt(file, offset, k)
    ensures ReadAt(file, offset, n)[k..] == ReadAt(file, offset + k, n - k)
  {
  }
}
