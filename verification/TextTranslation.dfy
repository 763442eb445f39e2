/** CR/LF translation of text transfers in smbclient, as functions on whole byte
    strings, and what happens when a download is translated chunk by chunk
    (client/client.c). */
module TextTranslation {
  import opened Bytes
  import opened RemoteFile

  const LF: byte := 10
  const CR: byte := 13

  /** Upload: every LF becomes CR LF. */
  function ToCrLf(s: seq<byte>): seq<byte> {
    if s == [] then []
    else (if s[0] == LF then [CR, LF] else [s[0]]) + ToCrLf(s[1..])
  }

  /** Download: the CR of every CR LF is dropped. */
  function FromCrLf(s: seq<byte>): seq<byte> {
    if s == [] then []
    else if s[0] == CR && |s| > 1 && s[1] == LF then [LF] + FromCrLf(s[2..])
    else [s[0]] + FromCrLf(s[1..])
  }

  lemma {:induction false} ToCrLfConcat(a: seq<byte>, b: seq<byte>)
    ensures ToCrLf(a + b) == ToCrLf(a) + ToCrLf(b)
  {
    if a == [] {
      assert a + b == b;
    } else {
      assert (a + b)[1..] == a[1..] + b;
      ToCrLfConcat(a[1..], b);
    }
  }

  /** Every line feed of an upload gets a carriage return in front of it. */
  lemma UploadAt(a: seq<byte>, b: seq<byte>)
    ensures ToCrLf(a + [10] + b) == ToCrLf(a) + [13, 10] + ToCrLf(b)
  {
    var lf: seq<byte> := [10];
    ToCrLfConcat(a + lf, b);
    ToCrLfConcat(a, lf);
    assert ToCrLf(lf) == [CR, LF] + ToCrLf(lf[1..]);
  }

  /** And nothing else is changed. */
  lemma {:induction false} UploadKeeps(s: seq<byte>)
    requires 10 !in s
    ensures ToCrLf(s) == s
  {
    if s != [] {
      UploadKeeps(s[1..]);
    }
  }

  /** Every carriage return in front of a line feed goes with a download. */
  lemma DownloadAt(a: seq<byte>, b: seq<byte>)
    ensures FromCrLf(a + [13, 10] + b) == FromCrLf(a) + [10] + FromCrLf(b)
  {
    var pair: seq<byte> := [13, 10];
    DownloadTwoPieces(a + pair, b);
    DownloadTwoPieces(a, pair);
    assert FromCrLf(pair) == [LF] + FromCrLf(pair[2..]);
  }

  /** And nothing else is changed. */
  lemma {:induction false} DownloadKeeps(s: seq<byte>)
    requires forall i :: 0 <= i < |s| - 1 ==> !(s[i] == 13 && s[i + 1] == 10)
    ensures FromCrLf(s) == s
  {
    if s != [] {
      var t := s[1..];
      forall i | 0 <= i < |t| - 1
        ensures !(t[i] == 13 && t[i + 1] == 10)
      {
        assert t[i] == s[i + 1] && t[i + 1] == s[i + 2];
      }
      DownloadKeeps(t);
    }
  }

  /** Translating for upload and back is the identity on every byte string,
      also on those that already hold CR LF pairs. */
  lemma {:induction false} DownloadInvertsUpload(s: seq<byte>)
    ensures FromCrLf(ToCrLf(s)) == s
  {
    if s != [] {
      DownloadInvertsUpload(s[1..]);
      var rest := ToCrLf(s[1..]);
      if s[0] == LF {
        assert ToCrLf(s) == [CR, LF] + rest;
        assert ToCrLf(s)[2..] == rest;
      } else {
        assert ToCrLf(s) == [s[0]] + rest;
        assert ToCrLf(s)[1..] == rest;
        assert rest != [] ==> rest[0] != LF;
      }
    }
  }

  /** The boundary between two chunks separates a CR from its LF. */
  predicate Splits(a: seq<byte>, b: seq<byte>) {
    a != [] && b != [] && a[|a| - 1] == CR && b[0] == LF
  }

  /** Translating two pieces separately is translating the whole, unless the
      boundary splits a CR LF: then exactly one byte too many comes out. */
  lemma {:induction false} DownloadTwoPieces(a: seq<byte>, b: seq<byte>)
    ensures !Splits(a, b) ==> FromCrLf(a) + FromCrLf(b) == FromCrLf(a + b)
    ensures Splits(a, b) ==> |FromCrLf(a)| + |FromCrLf(b)| == |FromCrLf(a + b)| + 1
  {
    var ab := a + b;
    if a == [] {
      assert ab == b;
    } else if a[0] == CR && |a| > 1 && a[1] == LF {
      assert ab[2..] == a[2..] + b;
      DownloadTwoPieces(a[2..], b);
      assert FromCrLf(ab) == [LF] + FromCrLf(ab[2..]);
    } else if |a| == 1 && Splits(a, b) {
      assert ab[2..] == b[1..];
      assert FromCrLf(b) == [LF] + FromCrLf(b[1..]);
      assert FromCrLf(ab) == [LF] + FromCrLf(b[1..]);
    } else {
      assert ab[1..] == a[1..] + b;
      DownloadTwoPieces(a[1..], b);
      assert FromCrLf(ab) == [ab[0]] + FromCrLf(ab[1..]);
    }
  }

  function Flatten(chunks: seq<seq<byte>>): seq<byte> {
    if chunks == [] then [] else chunks[0] + Flatten(chunks[1..])
  }

  /** A download translated one chunk at a time. */
  function FromCrLfChunks(chunks: seq<seq<byte>>): seq<byte> {
    if chunks == [] then [] else FromCrLf(chunks[0]) + FromCrLfChunks(chunks[1..])
  }

  /** Number of chunk boundaries that separate a CR from its LF. */
  function SplitCount(chunks: seq<seq<byte>>): nat {
    if |chunks| < 2 then 0
    else (if Splits(chunks[0], chunks[1]) then 1 else 0) + SplitCount(chunks[1..])
  }

  predicate NoEmptyChunk(chunks: seq<seq<byte>>) {
    forall i :: 0 <= i < |chunks| ==> chunks[i] != []
  }

  lemma {:induction false} FlattenSnoc(chunks: seq<seq<byte>>, c: seq<byte>)
    ensures Flatten(chunks + [c]) == Flatten(chunks) + c
    ensures FromCrLfChunks(chunks + [c]) == FromCrLfChunks(chunks) + FromCrLf(c)
  {
    if chunks != [] {
      assert (chunks + [c])[1..] == chunks[1..] + [c];
      FlattenSnoc(chunks[1..], c);
    } else {
      assert ([] + [c])[1..] == [];
    }
  }

  /** Chunked download emits one stray CR for every split pair and is otherwise
      the whole-file translation. */
  lemma {:induction false} ChunkedDownload(chunks: seq<seq<byte>>)
    requires NoEmptyChunk(chunks)
    ensures |FromCrLfChunks(chunks)| == |FromCrLf(Flatten(chunks))| + SplitCount(chunks)
    ensures FromCrLfChunks(chunks) == FromCrLf(Flatten(chunks)) <==> SplitCount(chunks) == 0
  {
    if chunks != [] {
      var rest := chunks[1..];
      ChunkedDownload(rest);
      DownloadTwoPieces(chunks[0], Flatten(rest));
      if rest != [] {
        assert rest[0] == chunks[1];
        assert Flatten(rest)[0] == rest[0][0];
      }
    }
  }

  /** Uploaded text comes back unchanged exactly when no chunk boundary of the
      download separates a CR from its LF. */
  lemma TextRoundTrip(s: seq<byte>, chunks: seq<seq<byte>>)
    requires NoEmptyChunk(chunks) && Flatten(chunks) == ToCrLf(s)
    ensures FromCrLfChunks(chunks) == s <==> SplitCount(chunks) == 0
  {
    DownloadInvertsUpload(s);
    ChunkedDownload(chunks);
  }

  /** A byte string cut into chunks of `size`, the last one possibly shorter. */
  function Cut(s: seq<byte>, size: nat): seq<seq<byte>>
    requires size > 0
    decreases |s|
  {
    if s == [] then []
    else if |s| <= size then [s]
    else [s[..size]] + Cut(s[size..], size)
  }

  lemma {:induction false} CutFlattens(s: seq<byte>, size: nat)
    requires size > 0
    ensures Flatten(Cut(s, size)) == s && NoEmptyChunk(Cut(s, size))
    decreases |s|
  {
    if s == [] {
    } else if |s| <= size {
      assert Flatten([s]) == s + Flatten([]);
    } else {
      var ct := Cut(s[size..], size);
      CutFlattens(s[size..], size);
      assert Cut(s, size) == [s[..size]] + ct;
      assert ([s[..size]] + ct)[1..] == ct;
      assert s[..size] + s[size..] == s;
    }
  }

  predicate IsMultiple(i: nat, size: nat)
    requires size > 0
    decreases i
  {
    i == 0 || (size <= i && IsMultiple(i - size, size))
  }

  /** Position `i` of `s` is a chunk boundary between a CR and its LF. */
  predicate SplitAt(s: seq<byte>, i: nat, size: nat)
    requires size > 0 && i < |s|
  {
    0 < i && IsMultiple(i, size) && s[i - 1] == CR && s[i] == LF
  }

  lemma SplitAtShift(s: seq<byte>, i: nat, size: nat)
    requires 0 < size < |s| && 0 < i < |s| - size
    ensures SplitAt(s, i + size, size) <==> SplitAt(s[size..], i, size)
  {
    assert IsMultiple(i + size, size) <==> IsMultiple(i, size);
  }

  /** For fixed-size reads the condition can be checked on the remote file: no
      multiple of the read size falls between a CR and its LF. */
  lemma {:induction false} CutSplits(s: seq<byte>, size: nat)
    requires size > 0
    ensures SplitCount(Cut(s, size)) == 0 <==> (forall i :: 0 <= i < |s| ==> !SplitAt(s, i, size))
    decreases |s|
  {
    if |s| <= size {
      assert |Cut(s, size)| < 2;
    } else {
      var t := s[size..];
      var ct := Cut(t, size);
      CutSplits(t, size);
      assert Cut(s, size) == [s[..size]] + ct;
      assert ([s[..size]] + ct)[1..] == ct;
      assert ct[0][0] == s[size];
      assert IsMultiple(size, size) by { assert IsMultiple(0, size); }
      assert Splits(s[..size], ct[0]) <==> SplitAt(s, size, size);
      if SplitCount(ct) == 0 && !SplitAt(s, size, size) {
        forall i: nat | i < |s|
          ensures !SplitAt(s, i, size)
        {
          if i > size {
            SplitAtShift(s, i - size, size);
          }
        }
      } else if SplitCount(ct) != 0 {
        var i :| 0 <= i < |t| && SplitAt(t, i, size);
        SplitAtShift(s, i, size);
      }
    }
  }
}
