/** The transfer loops of smbclient's get and put, with and without CR/LF
    translation (client/client.c). */
module TextTransfer {
  import opened Bytes
  import opened RemoteFile
  import opened TextTranslation
  import SmbFileIo

  /** What an upload sends for the local bytes `s`. */
  function Upload(s: seq<byte>, translation: bool): seq<byte> {
    if translation then ToCrLf(s) else s
  }

  /** What a download stores for the remote bytes `s`, taken as one piece. */
  function Download(s: seq<byte>, translation: bool): seq<byte> {
    if translation then FromCrLf(s) else s
  }

  /** What a download stores when the remote bytes arrive in `chunks`. */
  function DownloadChunks(chunks: seq<seq<byte>>, translation: bool): seq<byte> {
    if translation then FromCrLfChunks(chunks) else Flatten(chunks)
  }

  lemma UploadConcat(a: seq<byte>, b: seq<byte>, translation: bool)
    ensures Upload(a + b, translation) == Upload(a, translation) + Upload(b, translation)
  {
    ToCrLfConcat(a, b);
  }

  /** Local input file: a byte string, a position and the end-of-file flag that
      is raised by the first attempt to read past the end. */
  class LocalInput {
    const data: seq<byte>
    var pos: nat
    var eof: bool

    ghost predicate Valid()
      reads this
    {
      pos <= |data| && (eof ==> pos == |data|)
    }

    constructor (data: seq<byte>)
      ensures this.data == data && pos == 0 && !eof && Valid()
    {
      this.data, pos, eof := data, 0, false;
    }

    /** x_getc: the next byte, or -1 at the end. */
    method Getc() returns (c: int)
      requires Valid()
      modifies this
      ensures Valid()
      ensures old(eof) ==> c == -1
      ensures c == -1 ==> eof && pos == old(pos)
      ensures c != -1 ==> !eof && pos == old(pos) + 1 && c == data[old(pos)]
    {
      if eof || pos == |data| {
        eof := true;
        return -1;
      }
      c := data[pos];
      pos := pos + 1;
    }
  }

  /** Local output file: the bytes written so far. `reliable` marks one that
      never refuses a byte. */
  class LocalOutput {
    var written: seq<byte>
    const reliable: bool

    constructor (reliable: bool)
      ensures written == [] && this.reliable == reliable
    {
      written, this.reliable := [], reliable;
    }

    /** write(): any prefix of `buf[at..at + n]` may be taken. */
    method Write(buf: array<byte>, at: nat, n: nat) returns (ret: int)
      requires at + n <= buf.Length
      modifies this
      ensures -1 <= ret <= n
      ensures written == old(written) + buf[at..at + Max(ret, 0)]
      ensures reliable ==> ret == n
    {
      var k: nat := n;
      if !reliable {
        if * {
          assert buf[at..at] == [];
          return -1;
        }
        assert n <= n;
        k :| k <= n;
      }
      written := written + buf[at..at + k];
      ret := k;
    }
  }

  /** readfile: fill `b` with the translation of the next local bytes; never
      more than `n` bytes of output, so that a two-byte CR LF always fits. */
  method ReadFile(b: array<byte>, n: nat, f: LocalInput, translation: bool) returns (i: nat)
    requires n <= b.Length && f.Valid()
    modifies b, f
    ensures f.Valid() && old(f.pos) <= f.pos
    ensures i <= n && b[..i] == Upload(f.data[old(f.pos)..f.pos], translation)
    ensures n >= 2 && !f.eof ==> i >= 1
    ensures i >= 1 ==> f.pos > old(f.pos)
    ensures old(f.eof) ==> i == 0
  {
    i := 0;
    ghost var start := f.pos;
    if !translation {
      while i < n
        invariant i <= n && f.Valid() && start <= f.pos && i == f.pos - start
        invariant b[..i] == f.data[start..f.pos]
        invariant old(f.eof) ==> i == 0 && f.eof
      {
        var c := f.Getc();
        if c == -1 {
          break;
        }
        b[i] := c;
        i := i + 1;
      }
      return;
    }
    i := ReadTranslated(b, n, f);
  }

  /** The translating loop of readfile. */
  method ReadTranslated(b: array<byte>, n: nat, f: LocalInput) returns (i: nat)
    requires n <= b.Length && f.Valid()
    modifies b, f
    ensures f.Valid() && old(f.pos) <= f.pos
    ensures i <= n && b[..i] == ToCrLf(f.data[old(f.pos)..f.pos])
    ensures n >= 2 && !f.eof ==> i >= 1
    ensures i >= 1 ==> f.pos > old(f.pos)
    ensures old(f.eof) ==> i == 0
  {
    i := 0;
    ghost var start := f.pos;
    ToCrLfNothing();
    assert f.data[start..start] == [];
    hide ToCrLf;
    while i < n - 1
      invariant i <= n && f.Valid() && start <= f.pos
      invariant b[..i] == ToCrLf(f.data[start..f.pos])
      invariant i >= 1 <==> f.pos > start
      invariant old(f.eof) ==> i == 0 && f.eof
      decreases n - i
    {
      ghost var soFar := b[..i];
      var c := f.Getc();
      if c == -1 {
        break;
      }
      ghost var before := f.pos - 1;
      ToCrLfConcat(f.data[start..before], [c]);
      assert f.data[start..f.pos] == f.data[start..before] + [c];
      ToCrLfOne(c);
      if c == LF {
        Store(b, i, CR);
        i := i + 1;
        assert soFar + [CR] + [c] == soFar + ([CR] + [c]);
      }
      Store(b, i, c);
      i := i + 1;
    }
  }

  method Store(b: array<byte>, i: nat, c: byte)
    requires i < b.Length
    modifies b
    ensures b[..i + 1] == old(b[..i]) + [c]
  {
    b[i] := c;
  }

  lemma ToCrLfNothing()
    ensures ToCrLf([]) == []
  {
  }

  lemma ToCrLfOne(c: byte)
    ensures ToCrLf([c]) == if c == LF then [CR] + [c] else [c]
  {
    assert ToCrLf([c]) == (if c == LF then [CR, LF] else [c]) + ToCrLf([]);
  }

  /** writefile: store the translation of `b[..n]`; the result is `n` exactly
      when all of it was stored. */
  method WriteFile(f: LocalOutput, b: array<byte>, n: nat, translation: bool) returns (i: int)
    requires n <= b.Length
    modifies f
    ensures i <= n
    ensures old(f.written) <= f.written <= old(f.written) + Download(b[..n], translation)
    ensures i == n ==> f.written == old(f.written) + Download(b[..n], translation)
    ensures f.reliable ==> i == n
  {
    if !translation {
      i := f.Write(b, 0, n);
      return;
    }
    i := WriteTranslated(f, b, n);
  }

  /** The byte loop of writefile. */
  method WriteTranslated(f: LocalOutput, b: array<byte>, n: nat) returns (i: nat)
    requires n <= b.Length
    modifies f
    ensures i <= n
    ensures old(f.written) <= f.written <= old(f.written) + FromCrLf(b[..n])
    ensures i == n ==> f.written == old(f.written) + FromCrLf(b[..n])
    ensures f.reliable ==> i == n
  {
    hide FromCrLf;
    FromCrLfNothing();
    i := 0;
    assert b[0..n] == b[..n];
    ghost var whole := old(f.written) + FromCrLf(b[..n]);
    while i < n
      invariant 0 <= i <= n
      invariant old(f.written) <= f.written
      invariant f.written + FromCrLf(b[i..n]) == whole
    {
      ghost var k, before := i, f.written;
      if b[i] == CR && i < n - 1 && b[i + 1] == LF {
        i := i + 1;
      }
      FromCrLfNext(b[k..n], b[i], i - k);
      assert b[k..n][i - k + 1..] == b[i + 1..n];
      assert whole == before + [b[i]] + FromCrLf(b[i + 1..n]);
      var ret := f.Write(b, i, 1);
      if ret != 1 {
        assert f.written == before;
        break;
      }
      assert |b[i..i + 1]| == 1 && b[i..i + 1][0] == b[i];
      assert f.written == before + [b[i]];
      i := i + 1;
    }
    assert b[n..n] == [];
  }

  lemma FromCrLfNothing()
    ensures FromCrLf([]) == []
  {
  }

  /** The next byte that the translation emits, and what it has used up. */
  lemma FromCrLfNext(s: seq<byte>, c: byte, skipped: nat)
    requires skipped < |s| && c == s[skipped]
    requires skipped == if s[0] == CR && |s| > 1 && s[1] == LF then 1 else 0
    ensures FromCrLf(s) == [c] + FromCrLf(s[skipped + 1..])
  {
  }

  /** do_put: upload the rest of `f` to the remote file at `start`. */
  method Put(h: SmbFileIo.RemoteHandle, maxXmit: SmbFileIo.uint32, f: LocalInput, start: nat,
             bufferSize: nat, translation: bool)
    returns (rc: int)
    requires maxXmit != SmbFileIo.HEADER_OVERHEAD && f.Valid()
    modifies h, f
    ensures f.Valid() && (rc == 0 || rc == 1)
    // the remote file holds the translation of the whole local file, as one write
    ensures rc == 0 ==>
              f.pos == |f.data| && h.file == WriteAt(old(h.file), start, Upload(f.data[old(f.pos)..], translation))
    // and on failure a prefix of it
    ensures exists sent :: sent <= Upload(f.data[old(f.pos)..], translation)
                           && h.file == WriteAt(old(h.file), start, sent)
    ensures h.reliable && bufferSize >= 2 ==> rc == 0
  {
    hide WriteAt, Upload;
    var buf := new byte[bufferSize];
    rc := 0;
    var nread: nat := 0;
    ghost var from := f.pos;
    ghost var sent := Upload([], translation);
    assert f.data[from..from] == [];
    UploadNothing(translation);
    WriteAtNothing(h.file, start);
    UploadPrefix(f.data[from..], 0, translation);
    while !f.eof
      invariant f.Valid() && from <= f.pos
      invariant sent == Upload(f.data[from..f.pos], translation) && |sent| == nread
      invariant h.file == WriteAt(old(h.file), start, sent)
      invariant rc == 0
      decreases |f.data| - f.pos, !f.eof
    {
      ghost var mid := f.pos;
      var n: int := ReadFile(buf, bufferSize, f, translation);
      UploadConcat(f.data[from..mid], f.data[mid..f.pos], translation);
      assert f.data[from..mid] + f.data[mid..f.pos] == f.data[from..f.pos];
      if n < 1 {
        assert buf[..0] == [];
        UploadEmpty(f.data[mid..f.pos], translation);
        if n == 0 && f.eof {
          break;
        }
        rc := 1;
        break;
      }
      ghost var all := f.data[from..];
      assert f.data[from..f.pos] == all[..f.pos - from];
      UploadPrefix(all, f.pos - from, translation);
      var ret;
      ghost var done;
      ret, done := SmbFileIo.Write(h, maxXmit, buf, start + nread, n);
      WriteAtCompose(old(h.file), start, sent, buf[..done]);
      assert buf[..n][..done] == buf[..done];
      if n != ret {
        rc := 1;
        sent := sent + buf[..done];
        assert sent <= Upload(all, translation);
        return;
      }
      sent := sent + buf[..n];
      nread := nread + n;
    }
    UploadPrefix(f.data[from..], f.pos - from, translation);
    assert f.data[from..f.pos] == f.data[from..][..f.pos - from];
  }

  lemma UploadNothing(translation: bool)
    ensures Upload([], translation) == []
  {
  }

  lemma UploadEmpty(s: seq<byte>, translation: bool)
    ensures Upload(s, translation) == [] ==> s == []
  {
  }

  lemma UploadPrefix(s: seq<byte>, k: nat, translation: bool)
    requires k <= |s|
    ensures Upload(s[..k], translation) <= Upload(s, translation)
    ensures k == |s| ==> Upload(s[..k], translation) == Upload(s, translation)
  {
    UploadConcat(s[..k], s[k..], translation);
    assert s[..k] + s[k..] == s;
  }

  /** do_get: download the remote file from `start` on in reads of `readSize`. */
  method Get(h: SmbFileIo.RemoteHandle, maxXmit: SmbFileIo.uint32, f: LocalOutput, start: nat,
             readSize: nat, translation: bool)
    returns (rc: int, ghost chunks: seq<seq<byte>>)
    requires maxXmit != SmbFileIo.HEADER_OVERHEAD
    modifies f, h`requests
    ensures rc == 0 || rc == 1
    ensures h.reliable && h.fullReads && f.reliable && readSize > 0 ==> rc == 0
    ensures NoEmptyChunk(chunks)
    ensures Flatten(chunks) <= ReadAt(h.file, start, |h.file|)
    // success exactly if all of the file has been read and stored
    ensures rc == 0 <==> Flatten(chunks) == ReadAt(h.file, start, |h.file|)
    ensures rc == 0 ==>
              Flatten(chunks) == ReadAt(h.file, start, |h.file|)
              && f.written == old(f.written) + DownloadChunks(chunks, translation)
    ensures rc == 0 && h.fullReads && readSize > 0 ==>
              chunks == Cut(ReadAt(h.file, start, |h.file|), readSize)
  {
    hide ReadAt, Download, DownloadChunks, Flatten, Cut;
    var data := new byte[readSize];
    var nread: nat := 0;
    rc, chunks := 0, [];
    ghost var all := ReadAt(h.file, start, |h.file|);
    ReadAtAll(h.file, start);
    DownloadNothing(translation);
    while true
      invariant NoEmptyChunk(chunks) && nread <= |all| && Flatten(chunks) == all[..nread]
      invariant f.written == old(f.written) + DownloadChunks(chunks, translation)
      invariant rc == 0
      invariant h.fullReads && readSize > 0 ==> chunks + Cut(all[nread..], readSize) == Cut(all, readSize)
      decreases |all| - nread
    {
      var n := SmbFileIo.Read(h, maxXmit, data, nread + start, readSize);
      if n <= 0 {
        break;
      }
      ReadAtPart(h.file, start, nread, n);
      var ret := WriteFile(f, data, n, translation);
      if ret != n {
        rc := 1;
        break;
      }
      DownloadSnoc(chunks, data[..n], translation);
      SliceJoin(all, nread, nread + n);
      if h.fullReads {
        CutStep(h.file, start, nread, readSize, n);
      }
      chunks := chunks + [data[..n]];
      nread := nread + n;
    }
    if nread + start < |h.file| {
      rc := 1;
    }
    if rc == 0 {
      assert all[..nread] == all && all[nread..] == [];
      if readSize > 0 {
        CutNothing(readSize);
        assert chunks + [] == chunks;
      }
    }
  }

  lemma SliceJoin(s: seq<byte>, a: nat, b: nat)
    requires a <= b <= |s|
    ensures s[..a] + s[a..b] == s[..b]
  {
  }

  lemma SliceOfSlice(s: seq<byte>, a: nat, b: nat, c: nat, d: nat)
    requires a <= b <= |s| && c <= d <= b - a
    ensures s[a..b][c..d] == s[a + c..a + d]
  {
    var x, y := s[a..b][c..d], s[a + c..a + d];
    assert |x| == |y|;
    forall i | 0 <= i < |x|
      ensures x[i] == y[i]
    {
      assert x[i] == s[a..b][c + i] == s[a + c + i];
    }
  }

  lemma DownloadNothing(translation: bool)
    ensures DownloadChunks([], translation) == [] && Flatten([]) == []
  {
  }

  lemma DownloadSnoc(chunks: seq<seq<byte>>, c: seq<byte>, translation: bool)
    ensures DownloadChunks(chunks + [c], translation) == DownloadChunks(chunks, translation) + Download(c, translation)
    ensures Flatten(chunks + [c]) == Flatten(chunks) + c
  {
    FlattenSnoc(chunks, c);
  }

  lemma CutNothing(size: nat)
    requires size > 0
    ensures Cut([], size) == []
  {
  }

  lemma ReadAtAll(file: seq<byte>, start: nat)
    ensures |ReadAt(file, start, |file|)| == Available(file, start)
  {
  }

  lemma ReadAtPart(file: seq<byte>, start: nat, from: nat, n: nat)
    requires from <= Available(file, start) && n <= Available(file, start + from)
    ensures ReadAt(file, start + from, n) == ReadAt(file, start, |file|)[from..from + n]
  {
    var all := ReadAt(file, start, |file|);
    if n > 0 {
      assert all == file[start..start + |all|];
      SliceOfSlice(file, start, start + |all|, from, from + n);
    }
  }

  /** A full-size read takes the next chunk of the cut. */
  lemma CutStep(file: seq<byte>, start: nat, from: nat, size: nat, n: nat)
    requires size > 0 && from <= Available(file, start)
    requires 0 < n == Min(size, Available(file, start + from))
    ensures var all := ReadAt(file, start, |file|);
            Cut(all[from..], size) == [all[from..from + n]] + Cut(all[from + n..], size)
  {
    var all := ReadAt(file, start, |file|);
    var rest := all[from..];
    if |rest| <= size {
      assert rest == all[from..from + n] && all[from + n..] == [];
    } else {
      assert rest[..size] == all[from..from + n] && rest[size..] == all[from + n..];
    }
  }

  /** Upload text to an empty remote file and download it again: it comes back
      unchanged exactly when no read boundary of the download separates a CR
      from its LF in the uploaded text. */
  method PutThenGet(h: SmbFileIo.RemoteHandle, maxXmit: SmbFileIo.uint32, text: LocalInput,
                    bufferSize: nat, readSize: nat)
    returns (back: LocalOutput, rc: int)
    requires maxXmit != SmbFileIo.HEADER_OVERHEAD
    requires h.file == [] && h.reliable && h.fullReads
    requires text.Valid() && text.pos == 0 && bufferSize >= 2 && readSize > 0
    modifies h, text
    ensures fresh(back) && rc == 0
    ensures back.written == text.data <==>
            (forall i :: 0 <= i < |ToCrLf(text.data)| ==> !SplitAt(ToCrLf(text.data), i, readSize))
  {
    rc := Put(h, maxXmit, text, 0, bufferSize, true);
    back := new LocalOutput(true);
    ghost var chunks;
    rc, chunks := Get(h, maxXmit, back, 0, readSize, true);
    PutGetChunks(text.data, h.file, readSize);
    assert text.data[0..] == text.data;
    TextRoundTrip(text.data, chunks);
    CutSplits(ToCrLf(text.data), readSize);
    assert back.written == [] + FromCrLfChunks(chunks);
  }

  lemma PutGetChunks(data: seq<byte>, file: seq<byte>, readSize: nat)
    requires readSize > 0 && file == WriteAt([], 0, Upload(data, true))
    ensures ReadAt(file, 0, |file|) == ToCrLf(data)
    ensures Flatten(Cut(ToCrLf(data), readSize)) == ToCrLf(data) && NoEmptyChunk(Cut(ToCrLf(data), readSize))
  {
    CutFlattens(ToCrLf(data), readSize);
  }

  /** An empty line, downloaded byte by byte: its pair is split, and it comes back
      with a stray CR. */
  method SplitPair(maxXmit: SmbFileIo.uint32) returns (back: LocalOutput)
    requires maxXmit != SmbFileIo.HEADER_OVERHEAD
    ensures fresh(back) && back.written == [CR, LF]
  {
    var h := new SmbFileIo.RemoteHandle([], true, true, 0);
    var text := new LocalInput([LF]);
    var rc := Put(h, maxXmit, text, 0, 2, true);
    back := new LocalOutput(true);
    ghost var chunks;
    rc, chunks := Get(h, maxXmit, back, 0, 1, true);
    assert [LF][0..] == [LF];
    PutGetChunks([LF], h.file, 1);
    PairInTwo();
  }

  lemma PairInTwo()
    ensures ToCrLf([LF]) == [CR, LF]
    ensures DownloadChunks(Cut([CR, LF], 1), true) == [CR, LF]
  {
    ToCrLfOne(LF);
    var a: seq<byte>, b: seq<byte> := [CR], [LF];
    assert [CR, LF][..1] == a && [CR, LF][1..] == b;
    assert Cut([CR, LF], 1) == [a, b];
    assert [a, b][1..] == [b] && [b][1..] == [];
    assert FromCrLf(a) == a && FromCrLf(b) == b;
    assert FromCrLfChunks([b]) == FromCrLf(b) + FromCrLfChunks([]);
    assert FromCrLfChunks([a, b]) == FromCrLf(a) + FromCrLfChunks([b]);
  }
}
