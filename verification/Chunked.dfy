/** The chunked response writer and a decoder of the chunked coding (WebServer.cpp; section 4.1 of RFC 7230). */
module Chunked {
  import opened Text
  import opened FormArgs

  const CRLF := "\r\n"

  // ---------------------------------------------------------------- the size line

  function HexChar(d: nat): char
    requires d < 16
  {
    if d < 10 then '0' + d as char else 'a' + (d - 10) as char
  }

  lemma HexCharDigit(d: nat)
    requires d < 16
    ensures HexDigit(HexChar(d)) == d
  {}

  /** "%x" */
  function Hex(n: nat): string {
    if n < 16 then [HexChar(n)] else Hex(n / 16) + [HexChar(n % 16)]
  }

  predicate HexText(s: string) {
    forall i | 0 <= i < |s| :: HexDigit(s[i]) >= 0
  }

  function HexValue(s: string): nat
    requires HexText(s)
  {
    if s == "" then 0 else HexValue(s[..|s| - 1]) * 16 + HexDigit(s[|s| - 1])
  }

  lemma {:induction false} HexRoundTrip(n: nat)
    ensures Hex(n) != "" && HexText(Hex(n)) && HexValue(Hex(n)) == n
  {
    if n < 16 {
      HexCharDigit(n);
      assert HexValue("") == 0;
    } else {
      HexRoundTrip(n / 16);
      HexCharDigit(n % 16);
      assert Hex(n)[..|Hex(n)| - 1] == Hex(n / 16);
    }
  }

  // ---------------------------------------------------------------- writing

  function Chunk(c: string): string {
    Hex(|c|) + CRLF + c + CRLF
  }

  /** What the writer emits for a list of contents and the final call; an empty content ends the chunks. */
  function Emitted(cs: seq<string>, chunked: bool): string {
    if cs == [] then (if chunked then Chunk("") else "")
    else (if chunked then Chunk(cs[0]) else cs[0]) + Emitted(cs[1..], chunked && cs[0] != "")
  }

  function Concat(cs: seq<string>): string {
    if cs == [] then "" else cs[0] + Concat(cs[1..])
  }

  /** The contents before the first empty one, and those after it. */
  function Before(cs: seq<string>): seq<string> {
    if cs == [] || cs[0] == "" then [] else [cs[0]] + Before(cs[1..])
  }

  function After(cs: seq<string>): seq<string> {
    if cs == [] then [] else if cs[0] == "" then cs[1..] else After(cs[1..])
  }

  // ---------------------------------------------------------------- an independent decoder

  datatype Body = Bad | Whole(content: string, next: int)

  function Prefixed(c: string, b: Body): Body {
    if b.Bad? then Bad else Whole(c + b.content, b.next)
  }

  /** The first position at or after i that holds no hexadecimal digit. */
  function HexEnd(s: string, i: nat): (e: nat)
    requires i <= |s|
    ensures i <= e <= |s| && HexText(s[i..e]) && (e < |s| ==> HexDigit(s[e]) < 0)
    decreases |s| - i
  {
    if i == |s| || HexDigit(s[i]) < 0 then i
    else
      var e := HexEnd(s, i + 1);
      assert s[i..e] == [s[i]] + s[i + 1..e];
      e
  }

  /** The content of the chunks from position i on, and where they end. */
  function Dechunk(s: string, i: nat): Body
    requires i <= |s|
    decreases |s| - i
  {
    var e := HexEnd(s, i);
    if e == i || !At(s, CRLF, e) then Bad else ChunkData(s, e + 2, HexValue(s[i..e]))
  }

  /** The n bytes of a chunk at position d, and the chunks after it. */
  function ChunkData(s: string, d: nat, n: nat): Body
    requires d <= |s|
    decreases |s| - d
  {
    if !At(s, CRLF, d + n) then Bad
    else if n == 0 then Whole("", d + 2)
    else Prefixed(s[d..d + n], Dechunk(s, d + n + 2))
  }

  // ---------------------------------------------------------------- the inverse

  lemma {:induction false} HexEndIs(s: string, i: nat, e: nat)
    requires i <= e < |s| && HexDigit(s[e]) < 0 && forall j | i <= j < e :: HexDigit(s[j]) >= 0
    ensures HexEnd(s, i) == e
    decreases e - i
  {
    if i < e {
      HexEndIs(s, i + 1, e);
    }
  }

  lemma TailSplit(s: string, i: nat, a: string, b: string, j: nat)
    requires Tail(s, i, a + b) && j == i + |a|
    ensures Tail(s, j, b) && s[i..j] == a && At(s, a, i)
  {
    assert forall k | 0 <= k < |a| :: (a + b)[k] == a[k];
    forall k | 0 <= k < |b| ensures s[j + k] == b[k] {
      assert (a + b)[|a| + k] == b[k];
    }
  }

  /** Where the parts of a chunk lie. */
  lemma ChunkParts(s: string, i: nat, c: string, rest: string, e: nat, next: nat)
    requires Tail(s, i, Chunk(c) + rest) && e == i + |Hex(|c|)| && next == e + 2 + |c| + 2
    ensures next <= |s| && Tail(s, next, rest) && s[i..e] == Hex(|c|) && s[e + 2..e + 2 + |c|] == c
    ensures At(s, CRLF, e) && At(s, CRLF, e + 2 + |c|) && e < |s| && s[e] == '\r'
  {
    var hex := Hex(|c|);
    assert Chunk(c) + rest == hex + (CRLF + (c + (CRLF + rest)));
    TailSplit(s, i, hex, CRLF + (c + (CRLF + rest)), e);
    TailSplit(s, e, CRLF, c + (CRLF + rest), e + 2);
    TailSplit(s, e + 2, c, CRLF + rest, e + 2 + |c|);
    TailSplit(s, e + 2 + |c|, CRLF, rest, next);
  }

  /** The size line of a chunk, as the decoder sees it. */
  lemma SizeLine(s: string, i: nat, e: nat, n: nat)
    requires i <= e < |s| && s[i..e] == Hex(n) && s[e] == '\r'
    ensures HexEnd(s, i) == e && e != i && HexValue(s[i..e]) == n
  {
    HexRoundTrip(n);
    forall j | i <= j < e ensures HexDigit(s[j]) >= 0 {
      assert s[j] == s[i..e][j - i];
    }
    HexEndIs(s, i, e);
  }

  lemma DechunkAt(s: string, i: nat, e: nat, n: nat)
    requires i < e <= |s| && HexEnd(s, i) == e && HexValue(s[i..e]) == n && At(s, CRLF, e)
    ensures Dechunk(s, i) == ChunkData(s, e + 2, n)
  {}

  lemma DataAt(s: string, d: nat, n: nat, c: string, next: nat)
    requires d + n <= |s| && At(s, CRLF, d + n) && c == s[d..d + n] && next == d + n + 2
    ensures ChunkData(s, d, n) == if c == "" then Whole("", next) else Prefixed(c, Dechunk(s, next))
  {}

  lemma DechunkOne(s: string, i: nat, c: string, rest: string, next: nat)
    requires Tail(s, i, Chunk(c) + rest) && next == i + |Chunk(c)|
    ensures next <= |s| && Tail(s, next, rest)
    ensures Dechunk(s, i) == if c == "" then Whole("", next) else Prefixed(c, Dechunk(s, next))
  {
    var e := i + |Hex(|c|)|;
    ChunkParts(s, i, c, rest, e, next);
    SizeLine(s, i, e, |c|);
    DechunkAt(s, i, e, |c|);
    DataAt(s, e + 2, |c|, c, next);
  }

  lemma {:induction false} RawEmitted(cs: seq<string>)
    ensures Emitted(cs, false) == Concat(cs)
  {
    if cs != [] {
      RawEmitted(cs[1..]);
    }
  }

  /** Decoding what was emitted gives the contents before the first empty one and ends where the
      contents after it begin, which go out unframed. */
  lemma {:induction false} EmittedDecodes(s: string, i: nat, cs: seq<string>)
    requires Tail(s, i, Emitted(cs, true))
    ensures Dechunk(s, i) == Whole(Concat(Before(cs)), |s| - |Concat(After(cs))|)
    decreases |cs|
  {
    if cs == [] {
      assert Chunk("") + "" == Chunk("");
      DechunkOne(s, i, "", "", i + |Chunk("")|);
    } else {
      var next := i + |Chunk(cs[0])|;
      DechunkOne(s, i, cs[0], Emitted(cs[1..], cs[0] != ""), next);
      if cs[0] == "" {
        RawEmitted(cs[1..]);
      } else {
        EmittedDecodes(s, next, cs[1..]);
        assert Before(cs)[1..] == Before(cs[1..]);
      }
    }
  }

  /** The whole response is decoded, up to its last byte, exactly when nothing follows an empty content. */
  lemma ChunkedIff(cs: seq<string>)
    ensures Dechunk(Emitted(cs, true), 0) == Whole(Concat(cs), |Emitted(cs, true)|) <==> Concat(After(cs)) == ""
  {
    EmittedDecodes(Emitted(cs, true), 0, cs);
    ConcatParts(cs);
  }

  lemma {:induction false} ConcatParts(cs: seq<string>)
    ensures Concat(cs) == Concat(Before(cs)) + Concat(After(cs))
  {
    if cs != [] && cs[0] != "" {
      ConcatParts(cs[1..]);
      assert Before(cs)[1..] == Before(cs[1..]);
    }
  }

  lemma {:induction false} NoneEmpty(cs: seq<string>)
    requires "" !in cs
    ensures Before(cs) == cs && After(cs) == []
  {
    if cs != [] {
      assert cs[0] in cs;
      NoneEmpty(cs[1..]);
    }
  }

  /** In particular when no content is empty. */
  lemma ChunkedRoundTrip(cs: seq<string>)
    requires "" !in cs
    ensures Dechunk(Emitted(cs, true), 0) == Whole(Concat(cs), |Emitted(cs, true)|)
  {
    NoneEmpty(cs);
    ChunkedIff(cs);
  }

  // ---------------------------------------------------------------- the server's state

  lemma EmittedFirst(c: string, rest: seq<string>, chunked: bool, sent: string)
    requires sent == if chunked then Chunk(c) else c
    ensures Emitted([c] + rest, chunked) == sent + Emitted(rest, chunked && c != "")
  {
    assert ([c] + rest)[1..] == rest;
  }

  class WebServer {
    var chunked: bool
    var out: string

    constructor (chunked: bool)
      ensures this.chunked == chunked && out == ""
    {
      this.chunked, out := chunked, "";
    }

    /** The size line goes out only if memory for it could be had. */
    method SendContent(content: string, memory: bool)
      modifies this
      ensures chunked == (old(chunked) && content != "")
      ensures out == old(out) + if !old(chunked) then content
                                else if memory then Chunk(content) else content + CRLF
      ensures memory ==> forall rest: seq<string> ::
                old(out) + Emitted([content] + rest, old(chunked)) == out + Emitted(rest, chunked)
    {
      var len := |content|;
      if chunked && memory {
        out := out + Hex(len) + CRLF;
      }
      out := out + content;
      if chunked {
        out := out + CRLF;
        if len == 0 {
          chunked := false;
        }
      }
      if memory {
        var sent := if old(chunked) then Chunk(content) else content;
        assert out == old(out) + sent;
        forall rest: seq<string>
          ensures old(out) + Emitted([content] + rest, old(chunked)) == out + Emitted(rest, chunked)
        {
          EmittedFirst(content, rest, old(chunked), sent);
        }
      }
    }

    method FinalizeResponse(memory: bool)
      modifies this
      ensures !chunked
      ensures memory ==> out == old(out) + Emitted([], old(chunked))
    {
      if chunked {
        SendContent("", memory);
      }
    }
  }
}
