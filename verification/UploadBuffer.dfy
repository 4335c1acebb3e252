/** The buffer behind the scanner, and the scanner as the loop that feeds it (Parsing.cpp). */
module UploadBuffer {
  import opened Words
  import opened Upload

  /** HTTP_UPLOAD_BUFLEN */
  const BUFLEN: nat := 1436

  /** What the upload handler of the application is called with. */
  datatype Call = Start | Write(bytes: seq<Byte>) | End(total: nat) | Abort

  // ---------------------------------------------------------------- how a file is cut into buffers

  /** Buffers of BUFLEN bytes, the last one with what is left. */
  function ChunksOf(w: seq<Byte>): (cs: seq<seq<Byte>>)
    ensures |cs| > 0
  {
    if |w| <= BUFLEN then [w] else [w[..BUFLEN]] + ChunksOf(w[BUFLEN..])
  }

  function Flat(cs: seq<seq<Byte>>): seq<Byte> {
    if cs == [] then [] else cs[0] + Flat(cs[1..])
  }

  function Writes(cs: seq<seq<Byte>>): (r: seq<Call>)
    ensures |r| == |cs| && forall i | 0 <= i < |cs| :: r[i] == Write(cs[i])
  {
    seq(|cs|, i requires 0 <= i < |cs| => Write(cs[i]))
  }

  /** The buffers together are the file, and all but the last are full. */
  lemma {:induction false} ChunksKeepAll(w: seq<Byte>)
    ensures Flat(ChunksOf(w)) == w
    ensures forall i | 0 <= i < |ChunksOf(w)| - 1 :: |ChunksOf(w)[i]| == BUFLEN
    ensures |ChunksOf(w)[|ChunksOf(w)| - 1]| <= BUFLEN
    ensures |w| > 0 ==> |ChunksOf(w)[|ChunksOf(w)| - 1]| > 0
    decreases |w|
  {
    if |w| > BUFLEN {
      var rest := ChunksOf(w[BUFLEN..]);
      ChunksKeepAll(w[BUFLEN..]);
      assert ChunksOf(w)[1..] == rest;
      assert w == w[..BUFLEN] + w[BUFLEN..];
    } else {
      assert [w][1..] == [];
      assert w + [] == w;
    }
  }

  predicate AllFull(cs: seq<seq<Byte>>) {
    forall i | 0 <= i < |cs| :: |cs[i]| == BUFLEN
  }

  /** Full buffers followed by a last, non-empty one are the cut of their contents. */
  lemma {:induction false} ChunksAre(cs: seq<seq<Byte>>, last: seq<Byte>)
    requires AllFull(cs) && |last| <= BUFLEN && (cs != [] ==> |last| > 0)
    ensures ChunksOf(Flat(cs) + last) == cs + [last]
  {
    if cs == [] {
      assert Flat(cs) + last == last;
    } else {
      var w := Flat(cs) + last;
      ChunksAre(cs[1..], last);
      assert w == cs[0] + (Flat(cs[1..]) + last);
      assert w[..BUFLEN] == cs[0] && w[BUFLEN..] == Flat(cs[1..]) + last;
      assert cs == [cs[0]] + cs[1..];
    }
  }

  lemma {:induction false} FlatAppend(cs: seq<seq<Byte>>, c: seq<Byte>)
    ensures Flat(cs + [c]) == Flat(cs) + c
  {
    if cs == [] {
      assert [c][1..] == [];
    } else {
      assert (cs + [c])[1..] == cs[1..] + [c];
      FlatAppend(cs[1..], c);
    }
  }

  // ---------------------------------------------------------------- the upload in progress

  class HTTPUpload {
    const canUpload: bool
    const buf: array<Byte>
    var currentSize: nat
    var totalSize: nat
    /** The calls made to the handler so far. */
    var calls: seq<Call>
    /** The buffers flushed so far. */
    ghost var chunks: seq<seq<Byte>>

    ghost predicate Valid()
      reads this, buf
    {
      buf.Length == BUFLEN && currentSize <= BUFLEN && AllFull(chunks) && totalSize == |Flat(chunks)|
      && (chunks != [] ==> currentSize > 0)
      && calls == if canUpload then [Start] + Writes(chunks) else []
    }

    /** The bytes written so far. */
    ghost function Written(): seq<Byte>
      reads this, buf
      requires Valid()
    {
      Flat(chunks) + buf[..currentSize]
    }

    constructor (canUpload: bool)
      ensures Valid() && Written() == [] && this.canUpload == canUpload && fresh(buf)
    {
      this.canUpload := canUpload;
      buf := new Byte[BUFLEN];
      currentSize, totalSize := 0, 0;
      calls := if canUpload then [Start] else [];
      chunks := [];
    }

    /** _uploadWriteByte: a full buffer is only flushed when the next byte comes. */
    method WriteByte(b: Byte)
      requires Valid()
      modifies this, buf
      ensures Valid() && Written() == old(Written()) + [b]
    {
      if currentSize == BUFLEN {
        if canUpload {
          calls := calls + [Write(buf[..currentSize])];
        }
        totalSize := totalSize + currentSize;
        ghost var flushed := buf[..currentSize];
        FlatAppend(chunks, flushed);
        chunks := chunks + [flushed];
        currentSize := 0;
      }
      buf[currentSize] := b;
      currentSize := currentSize + 1;
      assert buf[..currentSize] == buf[..currentSize - 1] + [b];
    }

    method WriteBytes(bs: seq<Byte>)
      requires Valid()
      modifies this, buf
      ensures Valid() && Written() == old(Written()) + bs
    {
      var k := 0;
      while k < |bs|
        invariant 0 <= k <= |bs| && Valid()
        invariant Written() == old(Written()) + bs[..k]
      {
        WriteByte(bs[k]);
        k := k + 1;
        assert bs[..k] == bs[..k - 1] + [bs[k - 1]];
      }
      assert bs[..k] == bs;
    }

    /** The end of the file: the last buffer is written and the total reported. */
    method Finish()
      requires Valid()
      modifies this
      ensures calls == if canUpload then [Start] + Writes(ChunksOf(old(Written()))) + [End(|old(Written())|)] else []
      ensures totalSize == |old(Written())|
    {
      ghost var last := buf[..currentSize];
      ChunksAre(chunks, last);
      assert Writes(chunks + [last]) == Writes(chunks) + [Write(last)];
      if canUpload {
        calls := calls + [Write(buf[..currentSize])];
      }
      totalSize := totalSize + currentSize;
      if canUpload {
        calls := calls + [End(totalSize)];
      }
    }

    /** _parseFormUploadAborted: the last buffer is not written. */
    method Fail()
      requires Valid()
      modifies this
      ensures var cs := ChunksOf(old(Written()));
              calls == if canUpload then [Start] + Writes(cs[..|cs| - 1]) + [Abort] else []
    {
      ghost var last := buf[..currentSize];
      ChunksAre(chunks, last);
      assert (chunks + [last])[..|chunks|] == chunks;
      if canUpload {
        calls := calls + [Abort];
      }
    }
  }

  // ---------------------------------------------------------------- the stream

  class Client {
    const data: seq<Byte>
    var pos: nat

    /** _uploadReadByte: -1 when nothing more comes. */
    method ReadByte() returns (b: int)
      requires pos <= |data|
      modifies this
      ensures if old(pos) < |data| then pos == old(pos) + 1 && b == data[old(pos)] as int
              else pos == old(pos) && b == -1
    {
      if pos == |data| {
        return -1;
      }
      b := data[pos] as int;
      pos := pos + 1;
    }

    /** readBytes into a buffer of n bytes with earlier contents. */
    method ReadBytes(n: nat, stale: seq<Byte>) returns (endBuf: seq<Byte>)
      requires pos <= |data| && |stale| == n
      modifies this
      ensures endBuf == EndBuf(data, old(pos), n, stale)
      ensures pos == if old(pos) + n <= |data| then old(pos) + n else |data|
    {
      endBuf := EndBuf(data, pos, n, stale);
      pos := if pos + n <= |data| then pos + n else |data|;
    }
  }

  /** b is the byte just read from the stream, or -1 at its end. */
  ghost predicate Read(client: Client, b: int)
    reads client
  {
    -1 <= b < 256 && client.pos <= |client.data|
    && if b >= 0 then client.pos > 0 && client.data[client.pos - 1] as int == b else client.pos == |client.data|
  }

  /** Where the automaton stands: the byte looked ahead, if there is one, is still to be scanned. */
  function Lookahead(pos: nat, b: int): int {
    if b >= 0 then pos - 1 else pos
  }

  datatype Progress = Again | Found | Broken

  /** One pass from the label `readfile` to the next `goto readfile`. */
  method Pass(client: Client, up: HTTPUpload, b0: int, boundary: seq<Byte>, stale: seq<Byte>)
    returns (b: int, p: Progress, ghost x: seq<Byte>)
    requires up.Valid() && Read(client, b0) && |stale| == |boundary|
    modifies client, up, up.buf
    ensures up.Valid() && Read(client, b)
    ensures var i := Lookahead(old(client.pos), b0);
            match p
            case Again =>
              var j := Lookahead(client.pos, b);
              && i < j && up.Written() == old(up.Written()) + x
              && Scan(client.data, i, boundary, stale) == Put(x, Scan(client.data, j, boundary, stale))
            case Found =>
              up.Written() == old(up.Written()) && Scan(client.data, i, boundary, stale) == Done([], client.pos)
            case Broken =>
              up.Written() == old(up.Written()) && Scan(client.data, i, boundary, stale) == Aborted([])
  {
    x, b, p := [], b0, Broken;
    if b == -1 {
      return;
    }
    ghost var i := client.pos - 1;
    if b != CR as int {
      x, p := [b as Byte], Again;
      up.WriteByte(b as Byte);
      b := client.ReadByte();
      return;
    }
    b := client.ReadByte();
    if b == -1 {
      return;
    }
    if b != LF as int {
      x, p := [CR], Again;
      up.WriteByte(CR);
      return;
    }
    b, p, x := AfterCrLf(client, up, i, boundary, stale);
  }

  method AfterCrLf(client: Client, up: HTTPUpload, ghost i: nat, boundary: seq<Byte>, stale: seq<Byte>)
    returns (b: int, p: Progress, ghost x: seq<Byte>)
    requires up.Valid() && client.pos == i + 2 <= |client.data| && |stale| == |boundary|
    requires client.data[i] == CR && client.data[i + 1] == LF
    modifies client, up, up.buf
    ensures up.Valid() && Read(client, b)
    ensures match p
            case Again =>
              var j := Lookahead(client.pos, b);
              && i < j && up.Written() == old(up.Written()) + x
              && Scan(client.data, i, boundary, stale) == Put(x, Scan(client.data, j, boundary, stale))
            case Found =>
              up.Written() == old(up.Written()) && Scan(client.data, i, boundary, stale) == Done([], client.pos)
            case Broken =>
              up.Written() == old(up.Written()) && Scan(client.data, i, boundary, stale) == Aborted([])
  {
    x, p := [], Broken;
    b := client.ReadByte();
    if b == -1 {
      return;
    }
    if b != DASH as int {
      x, p := [CR, LF], Again;
      up.WriteBytes([CR, LF]);
      return;
    }
    b := client.ReadByte();
    if b == -1 {
      return;
    }
    if b != DASH as int {
      x, p := [CR, LF, DASH], Again;
      up.WriteBytes([CR, LF, DASH]);
      return;
    }
    b, p, x := Candidate(client, up, i, boundary, stale);
  }

  /** After `CRLF--` the boundary is read blindly. */
  method Candidate(client: Client, up: HTTPUpload, ghost i: nat, boundary: seq<Byte>, stale: seq<Byte>)
    returns (b: int, p: Progress, ghost x: seq<Byte>)
    requires up.Valid() && DelimAt(client.data, i) && client.pos == i + 4 && |stale| == |boundary|
    modifies client, up, up.buf
    ensures up.Valid() && Read(client, b) && p != Broken
    ensures p.Again? ==>
              var j := Lookahead(client.pos, b);
              && i < j && up.Written() == old(up.Written()) + x
              && Scan(client.data, i, boundary, stale) == Put(x, Scan(client.data, j, boundary, stale))
    ensures p.Found? ==>
              up.Written() == old(up.Written()) && Scan(client.data, i, boundary, stale) == Done([], client.pos)
  {
    var endBuf := client.ReadBytes(|boundary|, stale);
    if endBuf == boundary {
      b := if client.pos == |client.data| then -1 else client.data[client.pos - 1] as int;
      p, x := Found, [];
      CandidateScan(client.data, i, endBuf, Lookahead(client.pos, b), boundary, stale);
    } else {
      b, x := FalseStart(client, up, i, endBuf, boundary, stale);
      p := Again;
    }
  }

  /** What was read is no boundary: it belongs to the file. */
  method FalseStart(client: Client, up: HTTPUpload, ghost i: nat, endBuf: seq<Byte>, ghost boundary: seq<Byte>,
                    ghost stale: seq<Byte>)
    returns (b: int, ghost x: seq<Byte>)
    requires up.Valid() && DelimAt(client.data, i) && |stale| == |boundary| && endBuf != boundary
    requires endBuf == EndBuf(client.data, i + 4, |boundary|, stale)
    requires client.pos == if i + 4 + |boundary| <= |client.data| then i + 4 + |boundary| else |client.data|
    modifies client, up, up.buf
    ensures up.Valid() && Read(client, b) && up.Written() == old(up.Written()) + x
    ensures var j := Lookahead(client.pos, b);
            i < j && Scan(client.data, i, boundary, stale) == Put(x, Scan(client.data, j, boundary, stale))
  {
    up.WriteBytes(DELIM);
    up.WriteBytes(endBuf);
    b := client.ReadByte();
    x := DELIM + endBuf;
    CandidateScan(client.data, i, endBuf, Lookahead(client.pos, b), boundary, stale);
  }

  lemma CandidateScan(s: seq<Byte>, i: nat, endBuf: seq<Byte>, j: int, boundary: seq<Byte>, stale: seq<Byte>)
    requires |stale| == |boundary| && DelimAt(s, i) && endBuf == EndBuf(s, i + 4, |boundary|, stale)
    ensures var after := i + 4 + |boundary|;
            && (endBuf == boundary ==> Scan(s, i, boundary, stale) == Done([], if after <= |s| then after else |s|))
            && (endBuf != boundary && 0 <= j && j == (if after <= |s| then after else |s|) ==>
                  Scan(s, i, boundary, stale) == Put(DELIM + endBuf, Scan(s, j, boundary, stale)))
  {
    if j >= 0 {
      ScanPastEnd(s, i + 4 + |boundary|, j, boundary, stale);
    }
  }

  lemma ScanPastEnd(s: seq<Byte>, i: nat, j: nat, boundary: seq<Byte>, stale: seq<Byte>)
    requires |stale| == |boundary|
    ensures i >= |s| && j >= |s| ==> Scan(s, i, boundary, stale) == Scan(s, j, boundary, stale)
  {}

  /** The loop around the label `readfile`: all the bytes of the scan are written. */
  method ReadFile(client: Client, up: HTTPUpload, boundary: seq<Byte>, stale: seq<Byte>) returns (done: bool)
    requires up.Valid() && up.Written() == [] && client.pos <= |client.data| && |stale| == |boundary|
    modifies client, up, up.buf
    ensures up.Valid()
    ensures var r := Scan(client.data, old(client.pos), boundary, stale);
            up.Written() == r.file && done == r.Done? && (done ==> client.pos == r.next)
  {
    ghost var start := client.pos;
    var b := client.ReadByte();
    var p := Again;
    ghost var i := start;
    ScannedNone(client.data, start, boundary, stale);
    while p.Again?
      invariant up.Valid() && Read(client, b)
      invariant p.Again? ==> i == Lookahead(client.pos, b)
      invariant i <= |client.data|
      invariant Scanned(client.data, start, boundary, stale, up.Written(), i)
      invariant p.Found? ==> Scan(client.data, i, boundary, stale) == Done([], client.pos)
      invariant p.Broken? ==> Scan(client.data, i, boundary, stale) == Aborted([])
      decreases |client.data| - i, p.Again?
    {
      ghost var before, x := up.Written(), [];
      b, p, x := Pass(client, up, b, boundary, stale);
      if p.Again? {
        ghost var j := Lookahead(client.pos, b);
        ScannedMore(client.data, start, boundary, stale, before, i, x, j);
        i := j;
      }
    }
    ScannedAll(client.data, start, boundary, stale, up.Written(), i);
    done := p.Found?;
  }

  /** The scan from the start has written w and goes on from i. */
  predicate Scanned(s: seq<Byte>, start: nat, boundary: seq<Byte>, stale: seq<Byte>, w: seq<Byte>, i: nat)
    requires |stale| == |boundary|
  {
    Scan(s, start, boundary, stale) == Put(w, Scan(s, i, boundary, stale))
  }

  lemma ScannedNone(s: seq<Byte>, start: nat, boundary: seq<Byte>, stale: seq<Byte>)
    requires |stale| == |boundary|
    ensures Scanned(s, start, boundary, stale, [], start)
  {
    assert [] + Scan(s, start, boundary, stale).file == Scan(s, start, boundary, stale).file;
  }

  lemma ScannedMore(s: seq<Byte>, start: nat, boundary: seq<Byte>, stale: seq<Byte>, w: seq<Byte>, i: nat,
                    x: seq<Byte>, j: nat)
    requires |stale| == |boundary| && Scanned(s, start, boundary, stale, w, i)
    requires Scan(s, i, boundary, stale) == Put(x, Scan(s, j, boundary, stale))
    ensures Scanned(s, start, boundary, stale, w + x, j)
  {
    PutPut(w, x, Scan(s, j, boundary, stale));
  }

  lemma ScannedAll(s: seq<Byte>, start: nat, boundary: seq<Byte>, stale: seq<Byte>, w: seq<Byte>, i: nat)
    requires |stale| == |boundary| && Scanned(s, start, boundary, stale, w, i)
    ensures Scan(s, i, boundary, stale).file == [] ==>
              Scan(s, start, boundary, stale) == Scan(s, i, boundary, stale).(file := w)
  {
    assert w + [] == w;
  }

  /** The file scanner: reads up to the boundary, or to the end of the stream, and feeds the handler. */
  method ReceiveFile(client: Client, canUpload: bool, boundary: seq<Byte>, stale: seq<Byte>)
    returns (done: bool, up: HTTPUpload)
    requires client.pos <= |client.data| && |stale| == |boundary|
    modifies client
    ensures up.canUpload == canUpload && (!canUpload ==> up.calls == [])
    ensures var r := Scan(client.data, old(client.pos), boundary, stale);
            var cs := ChunksOf(r.file);
            && done == r.Done?
            && (done ==> client.pos == r.next && up.totalSize == |r.file|)
            && (canUpload ==> up.calls == if done then [Start] + Writes(cs) + [End(|r.file|)]
                                          else [Start] + Writes(cs[..|cs| - 1]) + [Abort])
  {
    up := new HTTPUpload(canUpload);
    done := ReadFile(client, up, boundary, stale);
    if done {
      up.Finish();
    } else {
      up.Fail();
    }
  }
}
