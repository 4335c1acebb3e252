/** The captive-portal DNS server: copying and decoding the asked name, and the compressed reply
    (DNSServer.cpp). A packet is a string of bytes. */
module Dns {
  import opened Text

  const HEADER := 12

  // ---------------------------------------------------------------- names on the wire

  type Label = s: string | 0 < |s| < 64 witness "a"

  /** Each label after its length, then a zero. */
  function Wire(ls: seq<Label>): string {
    if ls == [] then ['\0'] else [|ls[0]| as char] + ls[0] + Wire(ls[1..])
  }

  /** The packet holds the name at a position. */
  predicate NameAt(p: string, at: nat, ls: seq<Label>)
    decreases |ls|
  {
    if ls == [] then at < |p| && p[at] == '\0'
    else at + 1 + |ls[0]| <= |p| && p[at] as int == |ls[0]| && p[at + 1..at + 1 + |ls[0]|] == ls[0]
         && NameAt(p, at + 1 + |ls[0]|, ls[1..])
  }

  function NameEnd(at: nat, ls: seq<Label>): (r: nat)
    ensures r > at
    decreases |ls|
  {
    if ls == [] then at + 1 else NameEnd(at + 1 + |ls[0]|, ls[1..])
  }

  lemma {:induction false} NameEndIs(at: nat, ls: seq<Label>)
    ensures NameEnd(at, ls) == at + |Wire(ls)|
    decreases |ls|
  {
    if ls != [] {
      NameEndIs(at + 1 + |ls[0]|, ls[1..]);
    }
  }

  lemma SliceAt(p: string, w: string, at: nat, i: nat, j: nat, pi: nat, pj: nat)
    requires At(p, w, at) && i <= j <= |w| && pi == at + i && pj == at + j
    ensures p[pi..pj] == w[i..j]
  {
    forall m | 0 <= m < j - i ensures p[pi..pj][m] == w[i..j][m] {
      CharAt(p, w, at, i + m);
    }
  }

  /** A packet that holds the name's wire form at a position holds the name there. */
  lemma {:induction false} WireHeld(p: string, at: nat, ls: seq<Label>)
    requires At(p, Wire(ls), at)
    ensures NameAt(p, at, ls)
    decreases |ls|
  {
    var w := Wire(ls);
    CharAt(p, w, at, 0);
    if ls != [] {
      var i, n := 1 + |ls[0]|, at + 1 + |ls[0]|;
      assert w[1..i] == ls[0] && w[i..] == Wire(ls[1..]);
      SliceAt(p, w, at, 1, i, at + 1, n);
      SliceAt(p, w, at, i, |w|, n, at + |w|);
      WireHeld(p, n, ls[1..]);
    }
  }

  lemma {:induction false} HeldWire(p: string, at: nat, ls: seq<Label>)
    requires NameAt(p, at, ls)
    ensures At(p, Wire(ls), at)
    decreases |ls|
  {
    var w := Wire(ls);
    if ls == [] {
      assert p[at..at + 1] == w;
    } else {
      var n := at + 1 + |ls[0]|;
      HeldWire(p, n, ls[1..]);
      assert p[at..at + |w|] == [p[at]] + p[at + 1..n] + p[n..at + |w|];
    }
  }

  // ---------------------------------------------------------------- an independent reader

  datatype Read = Malformed | Name(labels: seq<Label>, next: nat)

  /** Reads the name at a position as section 4.1.4 of RFC 1035 describes it: labels up to a zero or up to a
      pointer, which must lead to before the start of the name it ends. */
  function ReadName(p: string, start: nat, at: nat): Read
    decreases start, |p| - at
  {
    if at >= |p| then Malformed
    else
      var n := p[at] as int;
      if n == 0 then Name([], at + 1)
      else if n < 64 && at + 1 + n <= |p| then
        match ReadName(p, start, at + 1 + n)
        case Malformed => Malformed
        case Name(ls, next) => Name([p[at + 1..at + 1 + n]] + ls, next)
      else if n >= 192 && at + 1 < |p| && (n - 192) * 256 + p[at + 1] as int < start then
        match ReadName(p, (n - 192) * 256 + p[at + 1] as int, (n - 192) * 256 + p[at + 1] as int)
        case Malformed => Malformed
        case Name(ls, next) => Name(ls, at + 2)
      else Malformed
  }

  lemma {:induction false} ReadHeld(p: string, start: nat, at: nat, ls: seq<Label>)
    requires NameAt(p, at, ls)
    ensures ReadName(p, start, at) == Name(ls, NameEnd(at, ls))
    decreases |ls|
  {
    if ls != [] {
      ReadHeld(p, start, at + 1 + |ls[0]|, ls[1..]);
      assert ls == [ls[0]] + ls[1..];
    }
  }

  lemma ReadPointer(p: string, at: nat, target: nat, ls: seq<Label>)
    requires at + 1 < |p| && p[at] as int == 192 && p[at + 1] as int == target < at && NameAt(p, target, ls)
    ensures ReadName(p, at, at) == Name(ls, at + 2)
  {
    ReadHeld(p, target, target, ls);
  }

  function U16(p: string, at: nat): nat
    requires at + 2 <= |p|
  {
    p[at] as int * 256 + p[at + 1] as int
  }

  // ---------------------------------------------------------------- the question

  /** The response bit and the operation code share a byte of the header. */
  predicate IsResponse(p: string)
    requires |p| >= HEADER
  {
    p[2] as int / 128 % 2 == 1
  }

  function OpCode(p: string): nat
    requires |p| >= HEADER
  {
    p[2] as int / 8 % 16
  }

  /** The byte holds the response bit, four bits of operation code, and three more bits. */
  lemma FlagBits(p: string, response: nat, code: nat, rest: nat)
    requires |p| >= HEADER && response < 2 && code < 16 && rest < 8
    requires p[2] as int == 128 * response + 8 * code + rest
    ensures OpCode(p) == code && (IsResponse(p) <==> response == 1)
  {
    assert p[2] as int / 8 == 16 * response + code;
  }

  predicate OneQuestion(p: string)
    requires |p| >= HEADER
  {
    U16(p, 4) == 1 && U16(p, 6) == 0 && U16(p, 8) == 0 && U16(p, 10) == 0
  }

  /** The labels with dots between them. */
  function Dotted(ls: seq<Label>): string {
    if ls == [] then "" else if |ls| == 1 then ls[0] else ls[0] + "." + Dotted(ls[1..])
  }

  /** Lower case, and without any "www." */
  function Domain(s: string): string {
    ReplaceAll(Lower(s), "www.", "")
  }

  /** The name keeps no capital letter, and letters of either case give the same. */
  lemma DomainFolds(s: string, t: string)
    ensures NoCapitals(Domain(s))
    ensures Lower(s) == Lower(t) ==> Domain(s) == Domain(t)
  {
    ReplaceKeepsOut(Lower(s), "www.");
  }

  predicate NoCapitals(s: string) {
    forall i | 0 <= i < |s| :: !('A' <= s[i] <= 'Z')
  }

  lemma {:induction false} ReplaceKeepsOut(s: string, t: string)
    requires t != "" && NoCapitals(s)
    ensures NoCapitals(ReplaceAll(s, t, ""))
    decreases |s|
  {
    var i := IndexOf(s, t, 0);
    if i >= 0 {
      ReplaceKeepsOut(s[i + |t|..], t);
    }
  }

  /** The first "www.", in any case, is left out, and so are those after it; a text without one is only
      folded. */
  lemma DomainWww(p: string, www: string, q: string)
    requires Lower(www) == "www." && forall j | 0 <= j < |p| :: !At(Lower(p + www + q), "www.", j)
    ensures Domain(p + www + q) == Lower(p) + Domain(q)
    ensures (forall j: nat :: !At(Lower(p), "www.", j)) ==> Domain(p) == Lower(p)
  {
    LowerConcat(p + www, q);
    LowerConcat(p, www);
    assert Lower(p + www + q) == Lower(p) + "www." + Lower(q);
    ReplaceFirst(Lower(p), "www.", Lower(q), "");
    if forall j: nat :: !At(Lower(p), "www.", j) {
      ReplaceNone(Lower(p), "www.", "");
    }
  }

  /** A leading label "www", in any case, makes no difference to the name asked for. */
  lemma LeadingWww(www: Label, ls: seq<Label>)
    requires Lower(www) == "www" && ls != []
    ensures Domain(Dotted([www] + ls)) == Domain(Dotted(ls))
  {
    assert ([www] + ls)[1..] == ls;
    LowerConcat(www, ".");
    assert Dotted([www] + ls) == "" + (www + ".") + Dotted(ls);
    DomainWww("", www + ".", Dotted(ls));
  }

  /** A packet with one question: the name at the end of the header, then its type and class. */
  predicate Asks(p: string, ls: seq<Label>) {
    |p| >= HEADER && NameAt(p, HEADER, ls) && NameEnd(HEADER, ls) + 4 <= |p| && |Wire(ls)| <= 127
  }

  // ---------------------------------------------------------------- the reply

  /** The answer to an address question: the header marked as a response with one answer, the
      question, then an answer whose name is a pointer to the question's. */
  predicate Answers(r: string, p: string, ls: seq<Label>, ttl: string, ip: string)
    requires Asks(p, ls)
  {
    var q := NameEnd(HEADER, ls);
    && |r| == q + 4 + 16
    && r[0] == p[0] && r[1] == p[1]
    && IsResponse(r) && OpCode(r) == OpCode(p)
    && U16(r, 4) == 1 && U16(r, 6) == 1 && U16(r, 8) == 0 && U16(r, 10) == 0
    && ReadName(r, HEADER, HEADER) == Name(ls, q)
    && r[q..q + 4] == p[q..q + 4]
    && ReadName(r, q + 4, q + 4) == Name(ls, q + 6)
    && U16(r, q + 6) == 1 && U16(r, q + 8) == 1
    && r[q + 10..q + 14] == ttl
    && U16(r, q + 14) == 4 && r[q + 16..] == ip
  }

  /** The header with the response bit set and the answer count of the question count. */
  function Marked(p: string): string
    requires |p| >= HEADER
  {
    var flags := p[2] as int;
    [p[0], p[1], if flags / 128 % 2 == 1 then p[2] else (if flags < 128 then flags + 128 else flags) as char, p[3],
     p[4], p[5], p[4], p[5], p[8], p[9], p[10], p[11]]
  }

  const ANSWER := ['\U{00C0}', '\U{000C}', '\0', '\U{0001}', '\0', '\U{0001}']
  const LENGTH := ['\0', '\U{0004}']

  lemma AtMiddle(a: string, b: string, c: string)
    ensures At(a + b + c, b, |a|)
  {
    assert (a + b + c)[|a|..|a| + |b|] == b;
  }

  /** What is written is a reply that a reader of the standard takes for the answer. */
  lemma WrittenAnswers(p: string, ls: seq<Label>, ttl: string, ip: string, r: string)
    requires Asks(p, ls) && OneQuestion(p) && !IsResponse(p) && p[2] as int < 256 && |ttl| == 4 && |ip| == 4
    requires var q := NameEnd(HEADER, ls);
             r == Marked(p) + p[HEADER..q] + p[q..q + 4] + ANSWER + ttl + LENGTH + ip
    ensures Answers(r, p, ls, ttl, ip)
  {
    var q := NameEnd(HEADER, ls);
    NameEndIs(HEADER, ls);
    HeldWire(p, HEADER, ls);
    assert p[HEADER..q] == Wire(ls);
    ReplyParts(p, ls, Marked(p), Wire(ls), p[q..q + 4], ttl, ip, r, q);
  }

  lemma ReplyParts(p: string, ls: seq<Label>, head: string, name: string, question: string, ttl: string,
                   ip: string, r: string, q: nat)
    requires |p| >= HEADER && OneQuestion(p) && !IsResponse(p) && p[2] as int < 256 && head == Marked(p)
    requires |question| == |ttl| == |ip| == 4 && name == Wire(ls) && q == NameEnd(HEADER, ls) == HEADER + |name|
    requires r == head + name + question + ANSWER + ttl + LENGTH + ip
    ensures && |r| == q + 20 && r[0] == p[0] && r[1] == p[1] && IsResponse(r) && OpCode(r) == OpCode(p)
            && U16(r, 4) == 1 && U16(r, 6) == 1 && U16(r, 8) == 0 && U16(r, 10) == 0
            && ReadName(r, HEADER, HEADER) == Name(ls, q) && r[q..q + 4] == question
            && ReadName(r, q + 4, q + 4) == Name(ls, q + 6) && U16(r, q + 6) == 1 && U16(r, q + 8) == 1
            && r[q + 10..q + 14] == ttl && U16(r, q + 14) == 4 && r[q + 16..] == ip
  {
    var tail := question + ANSWER + ttl + LENGTH + ip;
    assert r == (head + name) + tail == head + (name + tail);
    TailParts(r, head + name, question, ttl, ip);
    HeadParts(r, p, name + tail);
    NamesRead(r, head, tail, ls, q);
  }

  /** The question's name is read in place, and the answer's through the pointer. */
  lemma NamesRead(r: string, head: string, tail: string, ls: seq<Label>, q: nat)
    requires |head| == HEADER && r == head + Wire(ls) + tail && q == NameEnd(HEADER, ls)
    requires q + 5 < |r| && r[q + 4] as int == 192 && r[q + 5] as int == 12
    ensures ReadName(r, HEADER, HEADER) == Name(ls, q) && ReadName(r, q + 4, q + 4) == Name(ls, q + 6)
  {
    AtMiddle(head, Wire(ls), tail);
    WireHeld(r, HEADER, ls);
    ReadHeld(r, HEADER, HEADER, ls);
    ReadPointer(r, q + 4, HEADER, ls);
  }

  lemma TailParts(r: string, head: string, question: string, ttl: string, ip: string)
    requires r == head + (question + ANSWER + ttl + LENGTH + ip) && |question| == |ttl| == |ip| == 4
    ensures var q := |head|;
            && |r| == q + 20 && r[q..q + 4] == question
            && r[q + 4] as int == 192 && r[q + 5] as int == 12
            && U16(r, q + 6) == 1 && U16(r, q + 8) == 1 && r[q + 10..q + 14] == ttl
            && U16(r, q + 14) == 4 && r[q + 16..] == ip
  {}

  lemma HeadParts(r: string, p: string, rest: string)
    requires |p| >= HEADER && OneQuestion(p) && !IsResponse(p) && p[2] as int < 256 && r == Marked(p) + rest
    ensures && r[0] == p[0] && r[1] == p[1] && IsResponse(r) && OpCode(r) == OpCode(p)
            && U16(r, 4) == 1 && U16(r, 6) == 1 && U16(r, 8) == 0 && U16(r, 10) == 0
  {
    var flags := p[2] as int;
    assert r[2] as int == flags + 128;
    assert (flags + 128) / 8 == flags / 8 + 16;
  }

  // ---------------------------------------------------------------- the server

  datatype Reply = Silent | Sent(bytes: string)

  /** What is left of a dotted name when `done` has been decoded and the labels `rest` have not. */
  predicate Decoded(ls: seq<Label>, done: string, rest: seq<Label>) {
    rest != [] && Dotted(ls) == done + Dotted(rest)
  }

  lemma DecodedNext(ls: seq<Label>, done: string, rest: seq<Label>)
    requires Decoded(ls, done, rest)
    ensures if |rest| == 1 then Dotted(ls) == done + rest[0]
            else Decoded(ls, done + rest[0] + ".", rest[1..])
  {
    if |rest| > 1 {
      assert done + (rest[0] + "." + Dotted(rest[1..])) == done + rest[0] + "." + Dotted(rest[1..]);
    }
  }

  lemma LabelEnd(p: string, at: nat, ls: seq<Label>, last: nat)
    requires NameAt(p, at, ls) && ls != [] && last == at + 1 + |ls[0]|
    ensures last < NameEnd(last, ls[1..]) == NameEnd(at, ls) && last < |p|
  {}

  class DNSServer {
    const domainName: string
    const resolvedIP: string
    const ttl: string
    const qName: array<char>
    var qNameLength: nat

    ghost predicate Valid() {
      qName.Length == 255 && |resolvedIP| == |ttl| == 4
    }

    constructor (domainName: string, resolvedIP: string, ttl: string)
      requires |resolvedIP| == |ttl| == 4
      ensures Valid() && fresh(qName)
      ensures this.domainName == Domain(domainName) && this.resolvedIP == resolvedIP && this.ttl == ttl
    {
      this.domainName := Domain(domainName);
      this.resolvedIP, this.ttl := resolvedIP, ttl;
      qName := new char[255](_ => '\0');
      qNameLength := 0;
    }

    /** memcpy of n bytes of the name */
    method CopyBytes(buffer: string, n: nat)
      requires qNameLength + n <= qName.Length && HEADER + qNameLength + n <= |buffer|
      requires qName[..qNameLength] == buffer[HEADER..HEADER + qNameLength]
      modifies this`qNameLength, qName
      ensures qNameLength == old(qNameLength) + n
      ensures qName[..qNameLength] == buffer[HEADER..HEADER + qNameLength]
    {
      ghost var was := qName[..qNameLength];
      assert forall j | 0 <= j < qNameLength :: qName[j] == was[j] == buffer[HEADER..HEADER + qNameLength][j];
      forall j | qNameLength <= j < qNameLength + n {
        qName[j] := buffer[HEADER + j];
      }
      qNameLength := qNameLength + n;
    }

    /** Copies the asked name label by label, with its final zero. */
    method CopyName(buffer: string, ghost ls: seq<Label>)
      requires Valid() && Asks(buffer, ls)
      modifies this`qNameLength, qName
      ensures HEADER + qNameLength == NameEnd(HEADER, ls) && qNameLength <= 127
      ensures qName[..qNameLength] == buffer[HEADER..HEADER + qNameLength]
    {
      qNameLength := 0;
      ghost var rest: seq<Label> := ls;
      NameEndIs(HEADER, ls);
      while buffer[HEADER + qNameLength] != '\0'
        invariant HEADER + qNameLength < |buffer| && NameAt(buffer, HEADER + qNameLength, rest)
        invariant NameEnd(HEADER + qNameLength, rest) == NameEnd(HEADER, ls) <= HEADER + 127
        invariant qName[..qNameLength] == buffer[HEADER..HEADER + qNameLength]
        decreases |rest|
      {
        var n := buffer[HEADER + qNameLength] as int + 1;
        ghost var last := HEADER + qNameLength + n;
        assert NameEnd(last, rest[1..]) == NameEnd(HEADER, ls);
        LabelEnd(buffer, HEADER + qNameLength, rest, last);
        CopyBytes(buffer, n);
        rest := rest[1..];
      }
      assert rest == [];
      assert buffer[HEADER + qNameLength] == '\0';
      CopyBytes(buffer, 1);
    }

    /** Decodes the asked name with dots between its labels. */
    method GetDomainNameWithoutWwwPrefix(buffer: string, ghost ls: seq<Label>) returns (name: string)
      requires Asks(buffer, ls)
      ensures name == Domain(Dotted(ls))
    {
      name := "";
      if buffer[HEADER] == '\0' {
        return "";
      }
      var pos: nat := HEADER;
      ghost var rest: seq<Label> := ls;
      while true
        invariant NameAt(buffer, pos, rest) && Decoded(ls, name, rest)
        decreases |rest|
      {
        var labelLength := buffer[pos] as int;
        var start := name;
        var i := 0;
        while i < labelLength
          invariant 0 <= i <= labelLength && name == start + buffer[pos + 1..pos + 1 + i]
        {
          i := i + 1;
          name := name + [buffer[pos + i]];
        }
        assert name == start + rest[0];
        DecodedNext(ls, start, rest);
        pos := pos + labelLength + 1;
        if buffer[pos] == '\0' {
          assert |rest| == 1;
          return Domain(name);
        }
        name := name + ".";
        rest := rest[1..];
      }
    }

    method ReplyWithIP(buffer: string, ghost ls: seq<Label>) returns (reply: string)
      requires Valid() && Asks(buffer, ls) && OneQuestion(buffer) && !IsResponse(buffer) && buffer[2] as int < 256
      requires HEADER + qNameLength == NameEnd(HEADER, ls)
      requires qNameLength <= qName.Length && qName[..qNameLength] == buffer[HEADER..HEADER + qNameLength]
      ensures Answers(reply, buffer, ls, ttl, resolvedIP)
    {
      var q := HEADER + qNameLength;
      reply := Marked(buffer) + qName[..qNameLength] + buffer[q..q + 4] + ANSWER + ttl + LENGTH + resolvedIP;
      WrittenAnswers(buffer, ls, ttl, resolvedIP, reply);
    }

    /** A plain query for the portal's name is answered with the address; any other query gets its own
        header back, and a response gets nothing. */
    method ProcessNextRequest(buffer: string, ghost ls: seq<Label>) returns (reply: Reply)
      requires Valid() && |buffer| >= HEADER && (forall i | 0 <= i < |buffer| :: buffer[i] as int < 256)
      requires OneQuestion(buffer) ==> Asks(buffer, ls)
      modifies this`qNameLength, qName
      ensures reply.Silent? <==> IsResponse(buffer)
      ensures reply.Sent? ==>
                if OpCode(buffer) == 0 && OneQuestion(buffer) && (domainName == "*" || domainName == Domain(Dotted(ls)))
                then Answers(reply.bytes, buffer, ls, ttl, resolvedIP)
                else reply.bytes == buffer[..HEADER]
    {
      if OneQuestion(buffer) {
        CopyName(buffer, ls);
      }
      if !IsResponse(buffer) && OpCode(buffer) == 0 && OneQuestion(buffer) {
        var name := "";
        if domainName != "*" {
          name := GetDomainNameWithoutWwwPrefix(buffer, ls);
        }
        if domainName == "*" || name == domainName {
          var bytes := ReplyWithIP(buffer, ls);
          return Sent(bytes);
        }
      }
      return if IsResponse(buffer) then Silent else Sent(buffer[..HEADER]);
    }
  }
}
