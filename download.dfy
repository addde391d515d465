/** The download half of `handle_get`: set `Content-Length` and
    `Content-Disposition`, start the response, then copy the file through a
    1024-byte buffer until `read_total` reaches the length from the file's
    metadata. Read and write counts are chosen nondeterministically within
    what `Read::read` and `Write::write` may return. */
module Download {
  import opened Wrappers
  import opened Seqs
  import opened Bytes

  const ChunkSize: nat := 1024

  datatype Charset = Iso88591

  /** `ContentDisposition { disposition: Attachment, parameters: [Filename(charset, None, name)] }`. */
  datatype Disposition = Attachment(charset: Charset, filename: string)

  /** The two headers the handler sets. */
  datatype Headers = Headers(contentLength: Option<u64>, disposition: Option<Disposition>)

  /** A file opened for reading: its content and the read position. */
  class OpenFile {
    const content: seq<byte>
    var pos: nat

    constructor (content: seq<byte>)
      ensures this.content == content && pos == 0
    {
      this.content := content;
      pos := 0;
    }

    /** `file.read(&mut buf)`: some of the next bytes, at most `buf.Length`
        of them and at least one unless the file is exhausted. */
    method Read(buf: array<byte>) returns (n: nat)
      requires pos <= |content|
      modifies this, buf
      ensures pos <= |content| && old(pos) + n == pos && n <= buf.Length
      ensures old(pos) < |content| && buf.Length > 0 ==> n >= 1
      ensures buf[..n] == content[old(pos)..pos]
    {
      var left := |content| - pos;
      var most := if left < buf.Length then left else buf.Length;
      assert pos < |content| && buf.Length > 0 ==> most >= 1;
      n :| n <= most && (pos < |content| && buf.Length > 0 ==> n >= 1);
      forall i | 0 <= i < n {
        buf[i] := content[pos + i];
      }
      pos := pos + n;
    }
  }

  /** A hyper response: headers may change only before `start`, bytes may be
      written only after it. */
  class Response {
    var headers: Headers
    var started: bool
    var body: seq<byte>
    /** The headers as they were when the response was started. */
    ghost var headersAtStart: Headers

    constructor ()
      ensures headers == Headers(None, None) && !started && body == []
    {
      headers := Headers(None, None);
      started := false;
      body := [];
      headersAtStart := Headers(None, None);
    }

    method SetContentLength(n: u64)
      requires !started
      modifies this
      ensures headers == old(headers).(contentLength := Some(n))
      ensures started == old(started) && body == old(body)
    {
      headers := headers.(contentLength := Some(n));
    }

    method SetDisposition(d: Disposition)
      requires !started
      modifies this
      ensures headers == old(headers).(disposition := Some(d))
      ensures started == old(started) && body == old(body)
    {
      headers := headers.(disposition := Some(d));
    }

    /** `res.start()`: the headers go out and the body stream opens. */
    method Start()
      requires !started
      modifies this
      ensures started && headersAtStart == headers == old(headers) && body == old(body)
    {
      started := true;
      headersAtStart := headers;
    }

    /** `stream.write(chunk)`: some prefix of the chunk is sent. */
    method Write(chunk: seq<byte>) returns (k: nat)
      requires started
      modifies this
      ensures k <= |chunk| && body == old(body) + chunk[..k]
      ensures started && headers == old(headers) && headersAtStart == old(headersAtStart)
    {
      k :| k <= |chunk|;
      body := body + chunk[..k];
    }
  }

  /** Iteration by iteration, a write accepts at most the bytes just read. */
  predicate WritesWithinReads(readCounts: seq<nat>, sentCounts: seq<nat>)
  {
    |readCounts| == |sentCounts| &&
    (readCounts != [] ==>
       var k := |readCounts| - 1;
       WritesWithinReads(readCounts[..k], sentCounts[..k]) && sentCounts[k] <= readCounts[k])
  }

  /** What reaches the client when iteration `i` read `readCounts[i]` bytes of
      `data` and the write accepted the first `sentCounts[i]` of them. */
  function Emitted(data: seq<byte>, readCounts: seq<nat>, sentCounts: seq<nat>): seq<byte>
    requires WritesWithinReads(readCounts, sentCounts) && Sum(readCounts) <= |data|
  {
    if readCounts == [] then []
    else
      var k := |readCounts| - 1;
      var off := Sum(readCounts[..k]);
      Emitted(data, readCounts[..k], sentCounts[..k]) + data[off..off + sentCounts[k]]
  }

  /** One byte reaches the client for every byte a write accepted. */
  lemma {:induction false} EmittedLength(data: seq<byte>, readCounts: seq<nat>, sentCounts: seq<nat>)
    requires WritesWithinReads(readCounts, sentCounts) && Sum(readCounts) <= |data|
    ensures |Emitted(data, readCounts, sentCounts)| == Sum(sentCounts)
    decreases |readCounts|
  {
    if readCounts != [] {
      var k := |readCounts| - 1;
      EmittedLength(data, readCounts[..k], sentCounts[..k]);
    }
  }

  /** The totals agree exactly when every write accepted its whole chunk. */
  lemma {:induction false} TotalsAgree(readCounts: seq<nat>, sentCounts: seq<nat>)
    requires WritesWithinReads(readCounts, sentCounts)
    ensures Sum(sentCounts) <= Sum(readCounts)
    ensures Sum(sentCounts) == Sum(readCounts) <==> sentCounts == readCounts
    decreases |readCounts|
  {
    if readCounts != [] {
      var k := |readCounts| - 1;
      TotalsAgree(readCounts[..k], sentCounts[..k]);
      if sentCounts == readCounts {
        assert sentCounts[..k] == readCounts[..k];
      }
      if sentCounts[..k] == readCounts[..k] && sentCounts[k] == readCounts[k] {
        assert sentCounts == sentCounts[..k] + [sentCounts[k]];
        assert readCounts == readCounts[..k] + [readCounts[k]];
      }
    }
  }

  /** With whole writes the client receives exactly the bytes read, in order. */
  lemma {:induction false} WholeWritesCopy(data: seq<byte>, readCounts: seq<nat>)
    requires WritesWithinReads(readCounts, readCounts) && Sum(readCounts) <= |data|
    ensures Emitted(data, readCounts, readCounts) == data[..Sum(readCounts)]
    decreases |readCounts|
  {
    if readCounts != [] {
      var k := |readCounts| - 1;
      WholeWritesCopy(data, readCounts[..k]);
      var off := Sum(readCounts[..k]);
      assert data[..off] + data[off..off + readCounts[k]] == data[..off + readCounts[k]];
    }
  }

  /** Every read returned between 1 and `ChunkSize` bytes. */
  predicate ChunksBounded(readCounts: seq<nat>)
  {
    forall i :: 0 <= i < |readCounts| ==> 1 <= readCounts[i] <= ChunkSize
  }

  /** Appending a count adds it to the sum. */
  lemma SumAppend(counts: seq<nat>, x: nat)
    ensures Sum(counts + [x]) == Sum(counts) + x
  {
    assert (counts + [x])[..|counts|] == counts;
  }

  /** One more iteration: its read count is added to the read total and the
      bytes its write accepted follow what was sent before. */
  lemma EmittedStep(data: seq<byte>, readCounts: seq<nat>, sentCounts: seq<nat>, read: nat, sent: nat)
    requires WritesWithinReads(readCounts, sentCounts) && Sum(readCounts) + read <= |data| && sent <= read
    ensures WritesWithinReads(readCounts + [read], sentCounts + [sent])
    ensures Sum(readCounts + [read]) == Sum(readCounts) + read
    ensures Sum(sentCounts + [sent]) == Sum(sentCounts) + sent
    ensures Emitted(data, readCounts + [read], sentCounts + [sent])
            == Emitted(data, readCounts, sentCounts) + data[Sum(readCounts)..Sum(readCounts) + sent]
  {
    var rs, ss := readCounts + [read], sentCounts + [sent];
    SumAppend(readCounts, read);
    SumAppend(sentCounts, sent);
    assert rs[..|readCounts|] == readCounts;
    assert ss[..|sentCounts|] == sentCounts;
  }

  /** The loop body of `CopyToClient` in terms of the counts: `chunk` is what
      the read returned and its first `sent` bytes what the write accepted. */
  lemma CopyStep(data: seq<byte>, readCounts: seq<nat>, sentCounts: seq<nat>, chunk: seq<byte>, sent: nat)
    requires WritesWithinReads(readCounts, sentCounts) && ChunksBounded(readCounts)
    requires 1 <= |chunk| <= ChunkSize && sent <= |chunk|
    requires Sum(readCounts) + |chunk| <= |data| && chunk == data[Sum(readCounts)..Sum(readCounts) + |chunk|]
    ensures WritesWithinReads(readCounts + [|chunk|], sentCounts + [sent]) && ChunksBounded(readCounts + [|chunk|])
    ensures Sum(readCounts + [|chunk|]) == Sum(readCounts) + |chunk|
    ensures Sum(sentCounts + [sent]) == Sum(sentCounts) + sent
    ensures Emitted(data, readCounts + [|chunk|], sentCounts + [sent])
            == Emitted(data, readCounts, sentCounts) + chunk[..sent]
  {
    EmittedStep(data, readCounts, sentCounts, |chunk|, sent);
    assert chunk[..sent] == data[Sum(readCounts)..Sum(readCounts) + sent];
  }

  /** Lines 75-89 of `handle_get`: copy the opened file to the started
      response through a 1024-byte buffer while `read_total < len`. Returns
      the totals and whether the final check saw them differ (it only
      prints an empty line then). */
  method CopyToClient(res: Response, file: OpenFile, len: u64)
    returns (readTotal: nat, sentTotal: nat, mismatch: bool, ghost readCounts: seq<nat>, ghost sentCounts: seq<nat>)
    requires res.started && res.body == []
    requires file.pos == 0 && len <= |file.content|
    modifies res, file
    ensures res.started && res.headers == old(res.headers) && res.headersAtStart == old(res.headersAtStart)
    ensures len <= readTotal < len + ChunkSize && readTotal <= |file.content| && file.pos == readTotal
    ensures |file.content| == len ==> readTotal == len
    ensures WritesWithinReads(readCounts, sentCounts) && Sum(readCounts) == readTotal && Sum(sentCounts) == sentTotal
    ensures ChunksBounded(readCounts)
    ensures res.body == Emitted(file.content, readCounts, sentCounts) && |res.body| == sentTotal
    ensures mismatch <==> sentCounts != readCounts
    ensures !mismatch ==> res.body == file.content[..readTotal]
  {
    var buffer := new byte[ChunkSize];
    readTotal, sentTotal := 0, 0;
    readCounts, sentCounts := [], [];
    while readTotal < len
      invariant file.pos == readTotal <= |file.content| && readTotal < len + ChunkSize
      invariant res.started && res.headers == old(res.headers) && res.headersAtStart == old(res.headersAtStart)
      invariant WritesWithinReads(readCounts, sentCounts) && Sum(readCounts) == readTotal && Sum(sentCounts) == sentTotal
      invariant ChunksBounded(readCounts)
      invariant res.body == Emitted(file.content, readCounts, sentCounts)
      decreases len - readTotal
    {
      var read := file.Read(buffer);
      var chunk := buffer[..read];
      var sent := res.Write(chunk);
      CopyStep(file.content, readCounts, sentCounts, chunk, sent);
      readTotal := readTotal + read;
      sentTotal := sentTotal + sent;
      readCounts, sentCounts := readCounts + [read], sentCounts + [sent];
    }

    mismatch := sentTotal != readTotal;
    TotalsAgree(readCounts, sentCounts);
    EmittedLength(file.content, readCounts, sentCounts);
    if !mismatch {
      WholeWritesCopy(file.content, readCounts);
    }
  }

  /** Lines 63-89 of `handle_get` once the URI is known to be listed: `uri`
      is the request URI, `len` the length from `fs::metadata`, `file` the
      opened file. Both headers are in place when the response starts. */
  method ServeFile(res: Response, file: OpenFile, uri: string, len: u64)
    returns (readTotal: nat, sentTotal: nat, mismatch: bool, ghost readCounts: seq<nat>, ghost sentCounts: seq<nat>)
    requires |uri| >= 1 && !res.started && res.body == [] && res.headers == Headers(None, None)
    requires file.pos == 0 && len <= |file.content|
    modifies res, file
    ensures res.started && res.headersAtStart == Headers(Some(len), Some(Attachment(Iso88591, uri[1..])))
    ensures len <= readTotal < len + ChunkSize && readTotal <= |file.content|
    ensures |file.content| == len ==> readTotal == len
    ensures WritesWithinReads(readCounts, sentCounts) && Sum(readCounts) == readTotal && Sum(sentCounts) == sentTotal
    ensures res.body == Emitted(file.content, readCounts, sentCounts)
    ensures mismatch <==> sentCounts != readCounts
    ensures !mismatch ==> res.body == file.content[..readTotal]
  {
    var name := uri[1..];
    res.SetContentLength(len);
    res.SetDisposition(Attachment(Iso88591, name));
    res.Start();
    readTotal, sentTotal, mismatch, readCounts, sentCounts := CopyToClient(res, file, len);
  }
}
