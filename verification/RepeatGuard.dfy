/** The "same key within three seconds" guard of put_line_to_file, and what it really rejects. */
module RepeatGuard {
  import opened Text
  import opened Record
  import opened LogLine
  import opened RequestLog
  import opened LogContents
  import opened Storage

  // ---------------------------------------------------------------- what get_var reads as the key

  /** A request's text after its first `key=`. */
  function AfterKey(r: Request): string {
    r.key + ";" + Join(RequestFields(r)[1..])
  }

  lemma TextFromKey(r: Request)
    ensures RequestText(r) == NameText(Key) + "=" + AfterKey(r)
  {}

  lemma PlainMentions(s: string, m: string)
    requires Plain(s)
    ensures !Mentions(s, m)
  {
    LowerPlain(s);
    ContainsAt(Lower(s), m + "=");
    if Mentions(s, m) {
      var i :| At(Lower(s), m + "=", i);
      CharAt(Lower(s), m + "=", i, |m|);
      assert false;
    }
  }

  lemma LaterFieldNotKey(r: Request, i: nat)
    requires 0 < i < |RequestFields(r)|
    ensures !EndsWith(Lower(RequestFields(r)[i].name), NameText(Key))
  {
    NamedFields(r);
    var n := Names(r)[i];
    assert n != Key;
    LowerName(n);
    NamesApart(n, Key);
  }

  /** A joined list none of whose field names ends in `key` does not mention it. */
  lemma JoinLacksKey(fs: seq<Field>)
    requires |fs| > 0 && PlainFields(fs)
    requires forall i | 0 <= i < |fs| :: !EndsWith(Lower(fs[i].name), NameText(Key))
    ensures !Mentions(Join(fs), NameText(Key))
  {
    var m := NameText(Key);
    NamePlain(Key);
    LowerJoin(fs);
    LowerFieldsPlain(fs);
    JoinHas(LowerFields(fs), m, "");
    assert m + "=" + "" == m + "=";
    forall i | 0 <= i < |fs| ensures !EndsWith(LowerFields(fs)[i].name, m) {}
  }

  /** `key=` occurs once in a request. */
  lemma KeyOnce(r: Request)
    requires PlainRequest(r)
    ensures !Mentions(AfterKey(r), NameText(Key))
  {
    var fs := RequestFields(r);
    var rest := fs[1..];
    RequestFieldsPlain(r);
    forall i | 0 <= i < |rest| ensures PlainField(rest[i]) && !EndsWith(Lower(rest[i].name), NameText(Key)) {
      assert rest[i] == fs[i + 1];
      LaterFieldNotKey(r, i + 1);
    }
    JoinLacksKey(rest);
    NameWritten(Key);
    PlainMentions(r.key, NameText(Key));
    MentionsSplit(r.key, Join(rest), NameText(Key));
  }

  /** The key that get_var reads from an unanswered line runs on to the unixtime. */
  function KeyToTime(r: Request): string {
    HeadText(r)[|NameText(Key)| + 1..]
  }

  lemma HeadFromKey(r: Request)
    ensures HeadText(r) == NameText(Key) + "=" + KeyToTime(r)
  {}

  lemma KeyVarSplit(r: Request)
    ensures AfterKey(r) == KeyToTime(r) + ";" + FieldText(Field("reqtime", r.reqtime))
  {
    HeadThenTime(r);
    TextFromKey(r);
    HeadFromKey(r);
    var k := NameText(Key) + "=";
    assert k + AfterKey(r) == RequestText(r) == k + (KeyToTime(r) + ";" + FieldText(Field("reqtime", r.reqtime)));
    assert AfterKey(r) == RequestText(r)[|k|..];
  }

  lemma KeyVarOfRequest(r: Request)
    requires PlainRequest(r)
    ensures Plain(NameText(Key)) && GetVar(RequestText(r), NameText(Key)) == KeyToTime(r)
  {
    var rest := FieldText(Field("reqtime", r.reqtime));
    KeyOnce(r);
    KeyVarSplit(r);
    TextFromKey(r);
    NameWritten(Key);
    LowerEquals(NameText(Key));
    GetVarAt("", NameText(Key) + "=", NameText(Key), KeyToTime(r), rest);
    EmptyPrefix(NameText(Key) + "=", KeyToTime(r), rest);
  }

  lemma EmptyPrefix(a: string, v: string, rest: string)
    ensures "" + a + v + ";" + rest == a + (v + ";" + rest)
  {}

  /** The key that get_var reads from an answered line includes the response, unless that mentions a key. */
  lemma KeyVarOfAnswered(r: Request, response: string, time: string)
    requires PlainRequest(r) && !Mentions(response, NameText(Key)) && Plain(time)
    ensures Plain(NameText(Key))
    ensures GetVar(LineText(r, Answered(response, time)), NameText(Key))
            == AfterKey(r) + ";" + FieldText(Field("response", response))
  {
    var v, rest := AfterKey(r) + ";" + FieldText(Field("response", response)), FieldText(Field("time", time));
    NameWritten(Key);
    KeyOnceAnswered(r, response, time);
    AnsweredParts(r, response, time, v, rest);
    LowerEquals(NameText(Key));
    GetVarAt("", NameText(Key) + "=", NameText(Key), v, rest);
    EmptyPrefix(NameText(Key) + "=", v, rest);
  }

  lemma KeyOnceAnswered(r: Request, response: string, time: string)
    requires PlainRequest(r) && !Mentions(response, NameText(Key)) && Plain(time)
    ensures !Mentions(AfterKey(r) + ";" + AnswerTail(response, time), NameText(Key))
  {
    KeyOnce(r);
    NameWritten(Key);
    TailHas(response, time, Key, "");
    assert NameText(Key) + "=" + "" == NameText(Key) + "=";
    MentionsSplit(AfterKey(r), AnswerTail(response, time), NameText(Key));
  }

  lemma AnsweredParts(r: Request, response: string, time: string, v: string, rest: string)
    requires v == AfterKey(r) + ";" + FieldText(Field("response", response)) && rest == FieldText(Field("time", time))
    ensures AfterKey(r) + ";" + AnswerTail(response, time) == v + ";" + rest
    ensures LineText(r, Answered(response, time)) == (NameText(Key) + "=") + (v + ";" + rest)
  {
    TextFromKey(r);
  }

  lemma KeyVarsDiffer(q: Request, response: string, r: Request)
    requires PlainRequest(r)
    ensures AfterKey(q) + ";" + FieldText(Field("response", response)) != KeyToTime(r)
  {
    var m := NameText(Response);
    NameWritten(Response);
    var f := FieldText(Field("response", response));
    assert f == m + "=" + response;
    LowerConcat(m + "=", response);
    LowerEquals(m);
    assert Lower(f)[0..0 + |m + "="|] == m + "=";
    assert At(Lower(f), m + "=", 0);
    ContainsAt(Lower(f), m + "=");
    MentionsSplit(AfterKey(q), f, m);
    RequestLacksResponse(r);
  }

  lemma RequestLacksResponse(r: Request)
    requires PlainRequest(r)
    ensures !Mentions(KeyToTime(r), NameText(Response))
  {
    LineAnswered(r, Unanswered);
    NameWritten(Response);
    TextFromKey(r);
    KeyVarSplit(r);
    MentionsSplit(KeyToTime(r), FieldText(Field("reqtime", r.reqtime)), NameText(Response));
    MentionsSuffix(NameText(Key) + "=", AfterKey(r), NameText(Response));
  }

  lemma MentionsSuffix(a: string, b: string, m: string)
    ensures Mentions(b, m) ==> Mentions(a + b, m)
  {
    LowerConcat(a, b);
    ContainsAt(Lower(b), m + "=");
    ContainsAt(Lower(a) + Lower(b), m + "=");
    if Mentions(b, m) {
      var i :| At(Lower(b), m + "=", i);
      AtShift(Lower(a), Lower(b), m + "=", i + |a|);
    }
  }

  // ---------------------------------------------------------------- what get_var reads as the unixtime

  function BeforeTime(r: Request): string {
    Join([Field("key", r.key), Field("cmd", r.cmd)] + Optional("arg", r.arg) + Optional("ext", r.ext))
  }

  lemma HeadToTime(r: Request)
    ensures HeadText(r) == BeforeTime(r) + ";" + FieldText(Field("unixtime", Decimal(r.unixtime)))
  {
    JoinAppend([Field("key", r.key), Field("cmd", r.cmd)] + Optional("arg", r.arg) + Optional("ext", r.ext),
               Field("unixtime", Decimal(r.unixtime)));
  }

  lemma LowerReqtime(time: string)
    ensures Lower(FieldText(Field("reqtime", time))) == "reqtime" + "=" + Lower(time)
  {}

  lemma ReqtimeLacksUnixtime(time: string)
    requires Plain(time)
    ensures !Mentions(FieldText(Field("reqtime", time)), NameText(Unixtime))
  {
    var m := NameText(Unixtime);
    LowerPlain(time);
    NamesApart(Reqtime, Unixtime);
    LowerReqtime(time);
    ContainsField("reqtime", Lower(time), m, "");
    assert m + "=" + "" == m + "=";
  }

  lemma TimeParts(r: Request)
    ensures RequestText(r)
            == (BeforeTime(r) + ";") + (NameText(Unixtime) + "=") + Decimal(r.unixtime) + ";"
               + FieldText(Field("reqtime", r.reqtime))
  {
    HeadThenTime(r);
    HeadToTime(r);
  }

  lemma TimeVarOfRequest(r: Request)
    requires PlainRequest(r)
    ensures Plain(NameText(Unixtime)) && GetVar(RequestText(r), NameText(Unixtime)) == Decimal(r.unixtime)
  {
    var rest := FieldText(Field("reqtime", r.reqtime));
    TimeParts(r);
    NameWritten(Unixtime);
    DecimalPlain(r.unixtime);
    PlainMentions(Decimal(r.unixtime), NameText(Unixtime));
    ReqtimeLacksUnixtime(r.reqtime);
    MentionsSplit(Decimal(r.unixtime), rest, NameText(Unixtime));
    LowerEquals(NameText(Unixtime));
    GetVarAt(BeforeTime(r) + ";", NameText(Unixtime) + "=", NameText(Unixtime), Decimal(r.unixtime), rest);
  }

  // ---------------------------------------------------------------- a response that mentions a key

  /** Around the last `name=`, in any case. */
  lemma LastMention(s: string, m: string) returns (p: string, k: string, v: string)
    requires WrittenName(m) && Mentions(s, m)
    ensures s == p + k + v && Lower(k) == m + "=" && !Mentions(v, m)
  {
    var t := m + "=";
    IndexOfFirst(Lower(s), t, 0);
    LastIndexOfLast(Lower(s), t, 0);
    var b := LastIndexOf(Lower(s), t, 0);
    p, k, v := s[..b], s[b..b + |t|], s[b + |t|..];
    assert s == p + k + v;
    assert Lower(k) == Lower(s)[b..b + |t|];
    NoLaterMention(s, p + k, v, m, b);
  }

  lemma NoLaterMention(s: string, a: string, v: string, m: string, b: nat)
    requires s == a + v && b < |a| && forall j | b < j :: !At(Lower(s), m + "=", j)
    ensures !Mentions(v, m)
  {
    ContainsAt(Lower(v), m + "=");
    LowerConcat(a, v);
    forall i: nat ensures !At(Lower(v), m + "=", i) {
      AtShift(Lower(a), Lower(v), m + "=", i + |a|);
      assert !At(Lower(s), m + "=", i + |a|);
    }
  }

  lemma AnsweredSplit(q: Request, p: string, k: string, v: string, time: string)
    ensures LineText(q, Answered(p + k + v, time)) == (RequestText(q) + ";response=" + p) + k + v + ";" + ("time=" + time)
  {}

  /** The last `name=` of an answered line is the one in the response. */
  lemma VarOfResponse(q: Request, name: Name, p: string, k: string, v: string, time: string)
    requires RoutingName(name) && Lower(k) == NameText(name) + "=" && !Mentions(v, NameText(name)) && Plain(time)
    ensures Plain(NameText(name)) && GetVar(LineText(q, Answered(p + k + v, time)), NameText(name)) == v
  {
    NameWritten(name);
    TimeMentions(time, name);
    MentionsSplit(v, "time=" + time, NameText(name));
    AnsweredSplit(q, p, k, v, time);
    GetVarAt(RequestText(q) + ";response=" + p, k, NameText(name), v, "time=" + time);
  }

  /** The response ends with the whole text of the request up to its unixtime, `key=` in any case. */
  predicate EndsWithRequest(response: string, r: Request) {
    var n := |response| - |KeyToTime(r)|;
    n >= 4 && response[n..] == KeyToTime(r) && Lower(response[n - 4..n]) == "key="
  }

  lemma KeyToTimeOnce(r: Request)
    requires PlainRequest(r)
    ensures !Mentions(KeyToTime(r), NameText(Key))
  {
    KeyOnce(r);
    KeyVarSplit(r);
    NameWritten(Key);
    MentionsSplit(KeyToTime(r), FieldText(Field("reqtime", r.reqtime)), NameText(Key));
  }

  /** The last `key=` of a response after which the request's text follows. */
  lemma EndsWithIff(response: string, p: string, k: string, v: string, r: Request)
    requires PlainRequest(r) && response == p + k + v && Lower(k) == "key=" && !Mentions(v, "key")
    ensures EndsWithRequest(response, r) <==> v == KeyToTime(r)
  {
    assert |k| == 4;
    var w := KeyToTime(r);
    if v == w {
      assert response[|p + k|..] == v && response[|p|..|p + k|] == k;
    }
    if EndsWithRequest(response, r) {
      KeyToTimeOnce(r);
      var n := |response| - |w|;
      var k' := response[n - 4..n];
      assert response == response[..n - 4] + k' + w;
      LowerEquals("key");
      NameLast(p, k, "key", v);
      NameLast(response[..n - 4], k', "key", w);
      assert n == |p| + 4;
    }
  }

  lemma EndMentions(response: string, r: Request)
    requires EndsWithRequest(response, r)
    ensures Mentions(response, "key")
  {
    var n := |response| - |KeyToTime(r)|;
    assert "key" + "=" == "key=";
    ContainsAt(Lower(response), "key=");
    assert Lower(response)[n - 4..n] == Lower(response[n - 4..n]);
    assert At(Lower(response), "key=", n - 4);
  }

  /** The key read from an answered line is that of a new request exactly when the response ends with it. */
  lemma KeyVarIff(q: Request, response: string, time: string, r: Request)
    requires PlainRequest(q) && PlainRequest(r) && Plain(time)
    ensures Plain(NameText(Key))
    ensures GetVar(LineText(q, Answered(response, time)), NameText(Key)) == KeyToTime(r) <==> EndsWithRequest(response, r)
  {
    NameWritten(Key);
    if Mentions(response, NameText(Key)) {
      var p, k, v := LastMention(response, NameText(Key));
      VarOfResponse(q, Key, p, k, v, time);
      EndsWithIff(response, p, k, v, r);
    } else {
      KeyVarOfAnswered(q, response, time);
      KeyVarsDiffer(q, response, r);
      if EndsWithRequest(response, r) {
        EndMentions(response, r);
      }
    }
  }

  lemma KeyToTimeParts(r: Request)
    ensures exists p :: KeyToTime(r) == p + "unixtime=" + Decimal(r.unixtime)
  {
    HeadFromKey(r);
    HeadToTime(r);
    var b := BeforeTime(r);
    assert b[..4] == "key=";
    assert KeyToTime(r) == (b[4..] + ";") + "unixtime=" + Decimal(r.unixtime);
  }

  /** Then the unixtime read from the line is that of the new request, too. */
  lemma TimeVarOfResponse(q: Request, response: string, time: string, r: Request)
    requires Plain(time) && EndsWithRequest(response, r)
    ensures Plain(NameText(Unixtime))
    ensures GetVar(LineText(q, Answered(response, time)), NameText(Unixtime)) == Decimal(r.unixtime)
  {
    KeyToTimeParts(r);
    var b :| KeyToTime(r) == b + "unixtime=" + Decimal(r.unixtime);
    var p := response[..|response| - |KeyToTime(r)|] + b;
    assert response == p + "unixtime=" + Decimal(r.unixtime);
    DecimalPlain(r.unixtime);
    NameWritten(Unixtime);
    LowerEquals(NameText(Unixtime));
    PlainMentions(Decimal(r.unixtime), NameText(Unixtime));
    VarOfResponse(q, Unixtime, p, "unixtime=", Decimal(r.unixtime), time);
  }

  // ---------------------------------------------------------------- the guard

  predicate SameRequest(q: Request, r: Request) {
    q.(reqtime := "") == r.(reqtime := "")
  }

  /** What the guard takes for the request itself: the very same request while it is unanswered, and
      afterwards a response that ends with its text. */
  predicate RepeatOf(e: Entry, r: Request) {
    if e.answer.Answered? then EndsWithRequest(e.answer.response, r) else SameRequest(e.request, r)
  }

  /** After a stored request the guard rejects the very same request posted in the same second while it is
      unanswered, and one that the response repeats, and nothing else: it does not space requests with
      the same key by three seconds. */
  lemma GuardExact(e: Entry, r: Request)
    requires GoodEntry(e) && GoodRequest(r)
    ensures Repeats(EntryText(e) + "\n", RequestText(r)) <==> RepeatOf(e, r)
  {
    EolLine(e.request, e.answer);
    KeyVarOfRequest(r);
    TimeVarOfRequest(r);
    if e.answer.Answered? {
      KeyVarIff(e.request, e.answer.response, e.answer.time + "\n", r);
      KeyToTimeInjective(r, r);
      if EndsWithRequest(e.answer.response, r) {
        TimeVarOfResponse(e.request, e.answer.response, e.answer.time + "\n", r);
      }
    } else {
      var q := e.request.(reqtime := e.request.reqtime + "\n");
      KeyVarOfRequest(q);
      TimeVarOfRequest(q);
      KeyToTimeInjective(q, r);
    }
  }

  /** A line that gives the time before the key. */
  function TimeFirst(unixtime: nat, key: string): string {
    "unixtime=" + (Decimal(unixtime) + ";key=" + key) + ";"
  }

  lemma TimeFirstVars(unixtime: nat, key: string)
    requires Plain(key)
    ensures GetVar(TimeFirst(unixtime, key), NameText(Unixtime)) == Decimal(unixtime) + ";key=" + key
    ensures GetVar(TimeFirst(unixtime, key), NameText(Key)) == key
    ensures PhpInt(Decimal(unixtime) + ";key=" + key) == unixtime
  {
    var d, line := Decimal(unixtime), TimeFirst(unixtime, key);
    NameWritten(Unixtime);
    NameWritten(Key);
    LowerEquals(NameText(Unixtime));
    LowerEquals(NameText(Key));
    TimeFirstQuiet(d, unixtime, key);
    assert line == "" + "unixtime=" + (d + ";key=" + key) + ";" + "";
    GetVarAt("", "unixtime=", NameText(Unixtime), d + ";key=" + key, "");
    assert line == ("unixtime=" + d + ";") + "key=" + key + ";" + "";
    GetVarAt("unixtime=" + d + ";", "key=", NameText(Key), key, "");
    assert d + ";key=" + key == d + (";key=" + key);
    LeadingOf(d, ";key=" + key);
    DecimalValue(unixtime);
  }

  lemma TimeFirstQuiet(d: string, unixtime: nat, key: string)
    requires d == Decimal(unixtime) && Plain(key)
    ensures !Mentions(d + ";key=" + key + ";" + "", NameText(Unixtime)) && !Mentions(key + ";" + "", NameText(Key))
  {
    DecimalPlain(unixtime);
    PlainMentions(d, NameText(Unixtime));
    PlainMentions(key, NameText(Key));
    PlainMentions("", NameText(Unixtime));
    PlainMentions("", NameText(Key));
    NamesApart(Key, Unixtime);
    NamesApart(Key, Key);
    LowerPlain(key);
    KeyNeedle(key);
    Needle(Key, key);
    ContainsField("key", Lower(key), NameText(Unixtime), "");
    assert NameText(Unixtime) + "=" + "" == NameText(Unixtime) + "=";
    assert d + ";key=" + key + ";" + "" == (d + ";" + ("key=" + key)) + ";" + "";
    MentionsSplit(d, "key=" + key, NameText(Unixtime));
    MentionsSplit(d + ";" + ("key=" + key), "", NameText(Unixtime));
    MentionsSplit(key, "", NameText(Key));
  }

  /** Were the time written before the key, the guard would refuse the same key within three seconds of
      the last line, and nothing else. */
  lemma TimeFirstGuard(unixtime: nat, key: string, again: nat, other: string)
    requires Plain(key) && Plain(other)
    ensures Repeats(TimeFirst(unixtime, key), TimeFirst(again, other))
            <==> key != "" && other == key && again <= unixtime + 3
  {
    NameWritten(Unixtime);
    NameWritten(Key);
    TimeFirstVars(unixtime, key);
    TimeFirstVars(again, other);
  }

  lemma KeyToTimeInjective(q: Request, r: Request)
    requires PlainRequest(q) && PlainRequest(r)
    ensures KeyToTime(q) == KeyToTime(r) <==> SameRequest(q, r)
    ensures KeyToTime(q) != ""
  {
    HeadFromKey(q);
    HeadFromKey(r);
    HeadInjective(q, r);
    HeadToTime(q);
  }

  lemma HeaderNeverRepeats(h: string, header: string, line: string)
    requires '=' !in header && Trim(h) == Trim(header)
    ensures !Repeats(h, line)
  {
    TrimKeepsFree(header, '=');
    TrimKeeps(h, '=');
    LowerKeeps(h, '=');
    var t := NameText(Unixtime) + "=";
    NameWritten(Unixtime);
    LowerEquals(NameText(Unixtime));
    LastIndexOfLast(Lower(h), t, 0);
    var b := LastIndexOf(Lower(h), t, 0);
    if b >= 0 {
      CharAt(Lower(h), t, b, |t| - 1);
      assert false;
    }
  }

  lemma TrimKeeps(s: string, ch: char)
    requires !PhpBlank(ch)
    ensures ch in s ==> ch in Trim(s)
    decreases |s|
  {
    if s != "" && PhpBlank(s[0]) {
      TrimKeeps(s[1..], ch);
    } else if s != "" && PhpBlank(s[|s| - 1]) {
      TrimKeeps(s[..|s| - 1], ch);
    }
  }

  /** The request repeats the newest one, which is still in the file. */
  predicate Repeated(log: seq<Entry>, evicted: nat, r: Request) {
    evicted < |log| && RepeatOf(log[|log| - 1], r)
  }

  lemma LastLine(c: Config, f: FileState, log: seq<Entry>, evicted: nat, lines: seq<string>)
    requires FileInv(c, f, log, evicted) && f.Present? && lines == ReadLines(f.content)
    ensures |lines| > 0
    ensures evicted < |log| ==> GoodEntry(log[|log| - 1]) && lines[|lines| - 1] == EntryText(log[|log| - 1]) + "\n"
    ensures evicted == |log| ==> Trim(lines[|lines| - 1]) == Trim(c.header)
  {
    if evicted < |log| {
      var live := log[evicted..];
      assert StoredAt(lines, live, |live| - 1);
    }
  }

  lemma EntryRepeats(e: Entry, last: string, r: Request)
    requires GoodEntry(e) && GoodRequest(r) && last == EntryText(e) + "\n"
    ensures last != "" && Repeats(last, RequestText(r)) <==> RepeatOf(e, r)
  {
    GuardExact(e, r);
  }

  lemma LastLineRepeats(c: Config, f: FileState, log: seq<Entry>, evicted: nat, lines: seq<string>, r: Request)
    requires FileInv(c, f, log, evicted) && f.Present? && lines == ReadLines(f.content)
    requires GoodRequest(r) && '=' !in c.header && |lines| > 0
    ensures lines[|lines| - 1] != "" && Repeats(lines[|lines| - 1], RequestText(r)) <==> Repeated(log, evicted, r)
  {
    var last := lines[|lines| - 1];
    LastLine(c, f, log, evicted, lines);
    if evicted < |log| {
      EntryRepeats(log[|log| - 1], last, r);
    } else {
      HeaderNeverRepeats(last, c.header, RequestText(r));
    }
  }

  /** A post is accepted unless its key is empty or it repeats the newest request to the second. */
  lemma PostAccepted(c: Config, f: FileState, log: seq<Entry>, evicted: nat, r: Request)
    requires FileInv(c, f, log, evicted) && GoodRequest(r) && '=' !in c.header
    ensures SaveRequest(c, f, r).1
            == if r.key == "" then "error" else if Repeated(log, evicted, r) then "error:repeat" else "success"
  {
    if r.key != "" {
      CreateKeepsLog(c, f, log, evicted);
      LineShape(r, Unanswered);
      var created := CreateFile(c, f);
      var lines := ReadLines(created.content);
      LastLine(c, created, log, evicted, lines);
      LastLineRepeats(c, created, log, evicted, lines, r);
      PutReply(c, f, lines, RequestText(r));
    }
  }

  lemma PutReply(c: Config, f: FileState, lines: seq<string>, line: string)
    requires c.logline == 1 && lines == ReadLines(CreateFile(c, f).content) && |lines| > 0
    ensures PutLine(c, f, line).1
            == if lines[|lines| - 1] != "" && Repeats(lines[|lines| - 1], line) then "error:repeat" else "success"
  {}
}
