/** The protocol without the promise that the held request stays in the file: posts may evict it while
    the lock is working on it. Where does the response go then, and who reads it? */
module Eviction {
  import opened Text
  import opened Record
  import opened LogLine
  import opened RequestLog
  import opened LogContents
  import opened Storage
  import opened Mailbox
  import opened RepeatGuard

  /** `log` is the history of all accepted requests with the answers stored for them, of which the
      first `evicted` have left the file. */
  datatype Mail = Mail(file: FileState, log: seq<Entry>, evicted: nat, device: Device)

  const EMPTY := Mail(Absent, [], 0, Idle)

  // ---------------------------------------------------------------- steps

  function Posted(c: Config, m: Mail, r: Request): Mail {
    var (f, reply) := SaveRequest(c, m.file, r);
    if reply == "success" then
      m.(file := CheckFile(c, f), log := m.log + [Entry(r, Unanswered)], evicted := EvictedAfter(c, m.log, m.evicted))
    else m.(file := CheckFile(c, f))
  }

  function Received(c: Config, m: Mail): Mail
    requires m.evicted <= |m.log|
  {
    var line := GetRequest(c, m.file, c.device, c.device);
    var t := m.(file := CheckFile(c, m.file));
    if Dropped(line) then t else t.(device := Holding(line, OldestOpen(m.log, m.evicted)))
  }

  /** The request of the history in whose line the response of the held line is stored, or the length
      of the history when no line takes it. */
  function Taker(c: Config, m: Mail, e: Event): nat
    requires e.Respond? && m.device.Holding?
  {
    if m.file.Absent? then |m.log|
    else
      var k := FirstTaking(ReadLines(m.file.content), c.logline, Underscored(GetArgval(m.device.line, NameText(Key))),
                           e.ukeyz, Underscored(GetArgval(m.device.line, NameText(Unixtime))));
      if k < 1 then |m.log| else m.evicted + k - 1
  }

  function Responded(c: Config, m: Mail, e: Event): Mail
    requires e.Respond? && m.device.Holding?
  {
    var k := Taker(c, m, e);
    Mail(RespondCall(c, m.file, m.device.line, e).0,
         if k < |m.log| then m.log[k := m.log[k].(answer := AnswerOf(e))] else m.log, m.evicted, Idle)
  }

  predicate Possible(c: Config, m: Mail, e: Event) {
    match e
    case Post(r) => GoodRequest(r)
    case Receive => m.device.Idle? && m.evicted <= |m.log|
    case Respond(_, ukeyz, _) =>
      m.device.Holding? && GoodAnswer(AnswerOf(e))
      && VariableNamed(Underscored(GetArgval(m.device.line, NameText(Key))), ukeyz)
    case OtherReceive(key, dev) => key != dev
    case OtherRespond(key, dev, _, _, _, _, _) => key != dev
  }

  function Next(c: Config, m: Mail, e: Event): Mail
    requires Possible(c, m, e)
  {
    match e
    case Post(r) => Posted(c, m, r)
    case Receive => Received(c, m)
    case Respond(_, _, _) => Responded(c, m, e)
    case _ => m.(file := OtherCall(c, m.file, e))
  }

  // ---------------------------------------------------------------- the invariant

  /** The lock holds the text of an unanswered request of the history, and every older request that is
      still in the file has been answered. */
  predicate HeldInv(m: Mail) {
    m.device.Holding? ==>
      var i := m.device.idx;
      i < |m.log| && GoodRequest(m.log[i].request) && m.log[i].answer.Unanswered?
      && m.device.line == RequestText(m.log[i].request)
      && forall j | m.evicted <= j < i :: m.log[j].answer.Answered?
  }

  predicate MailInv(c: Config, m: Mail) {
    FileInv(c, m.file, m.log, m.evicted) && HeldInv(m)
  }

  lemma PostedKeeps(c: Config, m: Mail, r: Request)
    requires MailInv(c, m) && GoodRequest(r)
    ensures MailInv(c, Posted(c, m, r))
  {
    PostKeepsFile(c, m.file, m.log, m.evicted, r);
    var (f, reply) := SaveRequest(c, m.file, r);
    if reply == "success" {
      HeldLater(m, Entry(r, Unanswered), EvictedAfter(c, m.log, m.evicted), Posted(c, m, r));
    }
  }

  lemma HeldLater(m: Mail, e: Entry, evicted: nat, t: Mail)
    requires HeldInv(m) && t.device == m.device && t.log == m.log + [e] && m.evicted <= evicted == t.evicted
    ensures HeldInv(t)
  {}

  /** The lock takes the oldest unanswered request in the file, if there is one and its text has none of
      the three phrases. */
  lemma ReceivedIs(c: Config, m: Mail)
    requires FileInv(c, m.file, m.log, m.evicted) && m.device.Idle?
    ensures var k := OldestOpen(m.log, m.evicted);
            Received(c, m) == m.(device := if k < |m.log| && !Alarming(RequestText(m.log[k].request))
                                           then Holding(RequestText(m.log[k].request), k) else Idle)
  {
    var k := OldestOpen(m.log, m.evicted);
    ReceiveExact(c, m.file, m.log, m.evicted);
    CheckKeepsLog(c, m.file, m.log, m.evicted);
    if k < |m.log| {
      FileEntry(c, m.file, m.log, m.evicted, k);
      RequestReadable(m.log[k].request);
    }
  }

  lemma ReceivedKeeps(c: Config, m: Mail)
    requires MailInv(c, m) && m.device.Idle?
    ensures MailInv(c, Received(c, m))
  {
    var k := OldestOpen(m.log, m.evicted);
    ReceivedIs(c, m);
    if k < |m.log| {
      FileEntry(c, m.file, m.log, m.evicted, k);
    }
  }

  // ---------------------------------------------------------------- where a response goes

  /** The held request. */
  function Held(m: Mail): Request
    requires m.device.Holding? && m.device.idx < |m.log|
  {
    m.log[m.device.idx].request
  }

  /** The text w starts what follows `key=` in the line of a request. */
  predicate KeyStarts(r: Request, w: string) {
    Lower(w) <= Lower(AfterKey(r) + "\n")
  }

  lemma OnceStarts(b: string, w: string)
    requires !Contains(b, "key=")
    ensures Contains("key=" + b, "key=" + w) <==> w <= b
  {
    var s, t := "key=" + b, "key=" + w;
    ContainsAt(s, t);
    StartsAt(b, w);
    if i :| At(s, t, i) {
      OnlyAtStart(b, w, i);
    }
  }

  lemma OnlyAtStart(b: string, w: string, i: nat)
    requires !Contains(b, "key=") && At("key=" + b, "key=" + w, i)
    ensures i == 0
  {
    CharAt("key=" + b, "key=" + w, i, 0);
    if i >= 4 {
      AtShift("key=", b, "key=" + w, i);
      assert b[i - 4..i - 4 + |"key=" + w|][..4] == "key=";
      ContainsAt(b, "key=");
      assert At(b, "key=", i - 4);
    }
  }

  lemma StartsAt(b: string, w: string)
    ensures At("key=" + b, "key=" + w, 0) <==> w <= b
  {
    var s, t := "key=" + b, "key=" + w;
    if w <= b {
      assert s[0..0 + |t|] == "key=" + b[..|w|];
    }
    if At(s, t, 0) {
      assert s[0..0 + |t|][4..] == b[..|w|];
    }
  }

  lemma KeyHasIff(r: Request, w: string)
    requires GoodRequest(r)
    ensures HasNoCase(RequestText(r) + "\n", "key=" + w) <==> KeyStarts(r, w)
  {
    var b := AfterKey(r) + "\n";
    EolKey(r);
    LowerKey(b);
    LowerKey(w);
    OnceStarts(Lower(b), Lower(w));
  }

  lemma LowerKey(s: string)
    ensures Lower("key=" + s) == "key=" + Lower(s)
  {}

  lemma EolKey(r: Request)
    requires GoodRequest(r)
    ensures RequestText(r) + "\n" == "key=" + (AfterKey(r) + "\n")
    ensures !Contains(Lower(AfterKey(r) + "\n"), "key=")
  {
    var q := r.(reqtime := r.reqtime + "\n");
    EolLine(r, Unanswered);
    TextFromKey(r);
    EolAfterKey(r, q);
    KeyOnce(q);
    assert NameText(Key) + "=" == "key=";
  }

  lemma EolAfterKey(r: Request, q: Request)
    requires RequestText(r) + "\n" == RequestText(q)
    ensures AfterKey(q) == AfterKey(r) + "\n"
  {
    TextFromKey(r);
    TextFromKey(q);
    assert AfterKey(q) == RequestText(q)[4..];
    assert AfterKey(r) + "\n" == (RequestText(r) + "\n")[4..];
  }

  /** An open request of that second whose key one of the two texts starts. */
  predicate TakesAny(e: Entry, ukey: string, ukeyz: string, unixtime: nat) {
    OpenOfTime(e, unixtime) && (KeyStarts(e.request, ukey) || KeyStarts(e.request, ukeyz))
  }

  lemma TakesAnyIff(lines: seq<string>, live: seq<Entry>, i: nat, ukey: string, ukeyz: string, unixtime: nat)
    requires Stores(lines, live) && i < |live|
    ensures TakesResponse(lines[i + 1], ukey, ukeyz, Decimal(unixtime)) <==> TakesAny(live[i], ukey, ukeyz, unixtime)
  {
    assert StoredAt(lines, live, i);
    if OpenOfTime(live[i], unixtime) {
      TakesIff(live[i], "", "", unixtime);
      KeyHasIff(live[i].request, ukey);
      KeyHasIff(live[i].request, ukeyz);
    } else {
      LineRefuses(lines, live, i, ukey, ukeyz, unixtime);
    }
  }

  /** The oldest such request in the file, or the length of the history. */
  function OldestTaking(log: seq<Entry>, evicted: nat, ukey: string, ukeyz: string, unixtime: nat): (k: nat)
    requires evicted <= |log|
    ensures evicted <= k <= |log|
    ensures k < |log| ==> TakesAny(log[k], ukey, ukeyz, unixtime)
    ensures forall j | evicted <= j < k :: !TakesAny(log[j], ukey, ukeyz, unixtime)
    decreases |log| - evicted
  {
    if evicted == |log| || TakesAny(log[evicted], ukey, ukeyz, unixtime) then evicted
    else OldestTaking(log, evicted + 1, ukey, ukeyz, unixtime)
  }

  lemma {:induction false} OldestTakingIs(log: seq<Entry>, evicted: nat, ukey: string, ukeyz: string, unixtime: nat, k: nat)
    requires evicted <= k <= |log| && (k < |log| ==> TakesAny(log[k], ukey, ukeyz, unixtime))
    requires forall j | evicted <= j < k :: !TakesAny(log[j], ukey, ukeyz, unixtime)
    ensures OldestTaking(log, evicted, ukey, ukeyz, unixtime) == k
  {}

  lemma FirstTakingAny(lines: seq<string>, log: seq<Entry>, evicted: nat, ukey: string, ukeyz: string, unixtime: nat)
    requires evicted <= |log| && Stores(lines, log[evicted..])
    ensures var k := OldestTaking(log, evicted, ukey, ukeyz, unixtime);
            FirstTaking(lines, 1, ukey, ukeyz, Decimal(unixtime)) == if k < |log| then k - evicted + 1 else -1
  {
    var live, k := log[evicted..], OldestTaking(log, evicted, ukey, ukeyz, unixtime);
    forall j | 1 <= j < |lines|
      ensures TakesResponse(lines[j], ukey, ukeyz, Decimal(unixtime))
              <==> TakesAny(log[evicted + j - 1], ukey, ukeyz, unixtime)
    {
      TakesAnyIff(lines, live, j - 1, ukey, ukeyz, unixtime);
    }
    FirstTakingIs(lines, 1, k - evicted + 1, ukey, ukeyz, Decimal(unixtime));
  }

  /** The line a response is stored in: the first open one of its second whose key the returned key or
      the value of the variable so named starts. */
  lemma TakerIs(c: Config, m: Mail, e: Event)
    requires MailInv(c, m) && e.Respond? && Possible(c, m, e)
    ensures Taker(c, m, e) == OldestTaking(m.log, m.evicted, Underscored(Held(m).key), e.ukeyz, Held(m).unixtime)
  {
    var r := Held(m);
    RequestReadable(r);
    CallParts(r, e.ukeyz);
    if m.file.Present? {
      FirstTakingAny(ReadLines(m.file.content), m.log, m.evicted, Underscored(r.key), e.ukeyz, r.unixtime);
      TakerAt(c, m, e, r);
    }
  }

  lemma TakerAt(c: Config, m: Mail, e: Event, r: Request)
    requires e.Respond? && m.device.Holding? && m.file.Present? && c.logline == 1
    requires GetArgval(m.device.line, NameText(Key)) == r.key
    requires Underscored(GetArgval(m.device.line, NameText(Unixtime))) == Decimal(r.unixtime)
    ensures var k := FirstTaking(ReadLines(m.file.content), 1, Underscored(r.key), e.ukeyz, Decimal(r.unixtime));
            Taker(c, m, e) == if k < 1 then |m.log| else m.evicted + k - 1
  {}

  lemma NothingStarts(r: Request)
    ensures KeyStarts(r, "")
  {}

  lemma OwnKeyStarts(r: Request)
    ensures KeyStarts(r, r.key)
  {
    TextFromKey(r);
    var rest := ";" + Join(RequestFields(r)[1..]) + "\n";
    assert AfterKey(r) + "\n" == r.key + rest;
    LowerConcat(r.key, rest);
  }

  /** A held request that is still in the file takes its response. */
  lemma HeldIsFirst(c: Config, m: Mail, e: Event)
    requires MailInv(c, m) && e.Respond? && Possible(c, m, e) && m.evicted <= m.device.idx
    ensures OldestTaking(m.log, m.evicted, Underscored(Held(m).key), e.ukeyz, Held(m).unixtime) == m.device.idx
  {
    var r := Held(m);
    RequestReadable(r);
    CallParts(r, e.ukeyz);
    TakesOwn(m.log[m.device.idx], Underscored(r.key), e.ukeyz);
    OldestTakingIs(m.log, m.evicted, Underscored(r.key), e.ukeyz, r.unixtime, m.device.idx);
  }

  lemma TakesOwn(e: Entry, ukey: string, ukeyz: string)
    requires e.answer.Unanswered? && (ukeyz == "" || ukey == e.request.key)
    ensures TakesAny(e, ukey, ukeyz, e.request.unixtime)
  {
    NothingStarts(e.request);
    OwnKeyStarts(e.request);
  }

  /** The line that takes a response lies in the file and was unanswered. */
  lemma TakerOpen(c: Config, m: Mail, e: Event)
    requires MailInv(c, m) && e.Respond? && Possible(c, m, e)
    ensures var k := Taker(c, m, e); m.evicted <= k <= |m.log| && (k < |m.log| ==> m.log[k].answer.Unanswered?)
  {
    if m.file.Present? {
      var lines, live := ReadLines(m.file.content), m.log[m.evicted..];
      var ukey := Underscored(GetArgval(m.device.line, NameText(Key)));
      var time := Underscored(GetArgval(m.device.line, NameText(Unixtime)));
      var k := FirstTaking(lines, 1, ukey, e.ukeyz, time);
      FirstTakingTakes(lines, 1, ukey, e.ukeyz, time);
      if k >= 1 {
        StoredLine(lines, live, k - 1);
      }
    }
  }

  lemma {:induction false} FirstTakingTakes(lines: seq<string>, i: nat, ukey: string, ukeyz: string, time: string)
    ensures var k := FirstTaking(lines, i, ukey, ukeyz, time); k >= 0 ==> TakesResponse(lines[k], ukey, ukeyz, time)
    decreases |lines| - i
  {
    if i < |lines| && !TakesResponse(lines[i], ukey, ukeyz, time) {
      FirstTakingTakes(lines, i + 1, ukey, ukeyz, time);
    }
  }

  /** The response is stored in the line that takes it, and in no other; without such a line the answer
      is "not found" and nothing changes. */
  lemma RespondedFile(c: Config, m: Mail, e: Event)
    requires MailInv(c, m) && e.Respond? && Possible(c, m, e)
    ensures var k := Taker(c, m, e);
            var call := RespondCall(c, m.file, m.device.line, e);
            && m.evicted <= k <= |m.log| && m.file.Present? && |ReadLines(m.file.content)| == |m.log| - m.evicted + 1
            && call == if k < |m.log| then (FileAnswered(m.file, m.log, m.evicted, k, AnswerOf(e)), "success")
                       else (m.file, "not found")
  {
    var k := Taker(c, m, e);
    TakerOpen(c, m, e);
    assert m.log != [];
    var lines, live := ReadLines(m.file.content), m.log[m.evicted..];
    if k < |m.log| {
      ResponseStored(c, m.file, lines, live, k - m.evicted, Underscored(GetArgval(m.device.line, NameText(Key))), e.ukeyz,
                     Underscored(GetArgval(m.device.line, NameText(Unixtime))), Underscored(e.response), e.time);
    }
  }

  lemma RespondedKeeps(c: Config, m: Mail, e: Event)
    requires MailInv(c, m) && e.Respond? && Possible(c, m, e)
    ensures MailInv(c, Responded(c, m, e))
  {
    var k := Taker(c, m, e);
    RespondedFile(c, m, e);
    if k < |m.log| {
      AnswerKeepsFile(c, m.file, m.log, m.evicted, k, AnswerOf(e));
    }
  }

  // ---------------------------------------------------------------- every run

  predicate Runs(c: Config, m: Mail, events: seq<Event>)
    decreases |events|
  {
    events == [] || (Possible(c, m, events[0]) && Runs(c, Next(c, m, events[0]), events[1..]))
  }

  function After(c: Config, m: Mail, events: seq<Event>): Mail
    requires Runs(c, m, events)
    decreases |events|
  {
    if events == [] then m else After(c, Next(c, m, events[0]), events[1..])
  }

  lemma NextKeeps(c: Config, m: Mail, e: Event)
    requires MailInv(c, m) && Possible(c, m, e)
    ensures MailInv(c, Next(c, m, e))
  {
    match e
    case Post(r) => PostedKeeps(c, m, r);
    case Receive => ReceivedKeeps(c, m);
    case Respond(_, _, _) => RespondedKeeps(c, m, e);
    case _ => CheckKeepsLog(c, m.file, m.log, m.evicted);
  }

  lemma {:induction false} RunKeeps(c: Config, m: Mail, events: seq<Event>)
    requires MailInv(c, m) && Runs(c, m, events)
    ensures MailInv(c, After(c, m, events))
    decreases |events|
  {
    if events != [] {
      NextKeeps(c, m, events[0]);
      RunKeeps(c, Next(c, m, events[0]), events[1..]);
    }
  }

  /** In every state a run reaches, whatever has been evicted: the response of the held request is stored
      with that request exactly when it is still in the file. */
  lemma OwnLineIff(c: Config, events: seq<Event>, e: Event)
    requires ValidConfig(c) && Runs(c, EMPTY, events) && e.Respond? && Possible(c, After(c, EMPTY, events), e)
    ensures var m := After(c, EMPTY, events);
            var i := m.device.idx;
            && i < |m.log| && m.device.line == RequestText(m.log[i].request)
            && (Taker(c, m, e) == i <==> m.evicted <= i)
            && (m.evicted <= i ==> Responded(c, m, e).log == m.log[i := m.log[i].(answer := AnswerOf(e))])
            && (i < m.evicted ==> Responded(c, m, e).log[i] == m.log[i])
  {
    var m := After(c, EMPTY, events);
    RunKeeps(c, EMPTY, events);
    TakerOpen(c, m, e);
    if m.evicted <= m.device.idx {
      TakerIs(c, m, e);
      HeldIsFirst(c, m, e);
    }
  }

  /** Otherwise it is given to the oldest unanswered request of the same second in the file whose key the
      evicted key, or the value of the variable it names, starts, and is lost as "not found" when there is none. */
  lemma EvictedGoesTo(c: Config, events: seq<Event>, e: Event)
    requires ValidConfig(c) && Runs(c, EMPTY, events) && e.Respond? && Possible(c, After(c, EMPTY, events), e)
    requires After(c, EMPTY, events).device.idx < After(c, EMPTY, events).evicted
    ensures var m := After(c, EMPTY, events);
            && m.evicted <= |m.log| && m.device.idx < |m.log|
            && var k := OldestTaking(m.log, m.evicted, Underscored(Held(m).key), e.ukeyz, Held(m).unixtime);
            && Responded(c, m, e).log == (if k < |m.log| then m.log[k := m.log[k].(answer := AnswerOf(e))] else m.log)
            && RespondCall(c, m.file, m.device.line, e).1 == (if k < |m.log| then "success" else "not found")
  {
    var m := After(c, EMPTY, events);
    RunKeeps(c, EMPTY, events);
    TakerIs(c, m, e);
    RespondedFile(c, m, e);
  }

  /** A key that names no variable excludes nobody: then it is the oldest unanswered request of that second. */
  lemma AnyKeyTakes(log: seq<Entry>, evicted: nat, ukey: string, unixtime: nat, k: nat)
    requires evicted <= k <= |log| && k == OldestTaking(log, evicted, ukey, "", unixtime)
    ensures k < |log| ==> OpenOfTime(log[k], unixtime)
    ensures forall j | evicted <= j < k :: !OpenOfTime(log[j], unixtime)
  {
    forall j | evicted <= j < |log| ensures TakesAny(log[j], ukey, "", unixtime) <==> OpenOfTime(log[j], unixtime) {
      NothingStarts(log[j].request);
    }
  }

  /** The guest it was given to then reads it as the response to his own request, unless an older line
      in the file can be mistaken for his. */
  lemma StrangerReads(c: Config, m: Mail, e: Event, k: nat)
    requires MailInv(c, m) && e.Respond? && Possible(c, m, e) && k == Taker(c, m, e) < |m.log|
    requires var r := m.log[k].request;
             ';' !in r.key && forall j | m.evicted <= j < k :: !Matches(m.log[j], r.key, r.unixtime)
    ensures var r := m.log[k].request;
            GetResponse(c, Responded(c, m, e).file, r.key, Decimal(r.unixtime)) == AnswerReply(AnswerOf(e))
  {
    var t, r := Responded(c, m, e), m.log[k].request;
    TakerOpen(c, m, e);
    RespondedKeeps(c, m, e);
    PollExact(c, t.file, t.log, t.evicted, r.key, r.unixtime);
    PolledIs(t.log, t.evicted, k, r.key, r.unixtime);
  }

  lemma PolledIs(log: seq<Entry>, evicted: nat, k: nat, key: string, unixtime: nat)
    requires evicted <= k < |log| && Matches(log[k], key, unixtime)
    requires forall j | evicted <= j < k :: !Matches(log[j], key, unixtime)
    ensures PolledIndex(log, evicted, key, unixtime) == k
  {}

  // ---------------------------------------------------------------- a run in which it happens

  lemma PostTaken(c: Config, m: Mail, r: Request)
    requires MailInv(c, m) && GoodRequest(r) && '=' !in c.header && r.key != "" && !Repeated(m.log, m.evicted, r)
    ensures var t := Posted(c, m, r);
            && MailInv(c, t) && t.log == m.log + [Entry(r, Unanswered)] && t.device == m.device
            && t.evicted == EvictedAfter(c, m.log, m.evicted)
  {
    PostAccepted(c, m.file, m.log, m.evicted, r);
    PostedKeeps(c, m, r);
  }

  lemma RunCons(c: Config, m: Mail, e: Event, t: Mail, rest: seq<Event>)
    requires Possible(c, m, e) && t == Next(c, m, e) && Runs(c, t, rest)
    ensures Runs(c, m, [e] + rest) && After(c, m, [e] + rest) == After(c, t, rest)
  {
    assert ([e] + rest)[1..] == rest;
  }

  lemma RunOfThree(c: Config, m0: Mail, m1: Mail, m2: Mail, a: Event, b: Event, d: Event)
    requires Possible(c, m0, a) && m1 == Next(c, m0, a)
    requires Possible(c, m1, b) && m2 == Next(c, m1, b) && Possible(c, m2, d)
    ensures Runs(c, m0, [a, b, d]) && After(c, m0, [a, b, d]) == Next(c, m2, d)
  {
    RunCons(c, m2, d, Next(c, m2, d), []);
    RunCons(c, m1, b, m2, [d] + []);
    RunCons(c, m0, a, m1, [b] + ([d] + []));
    assert [a] + ([b] + ([d] + [])) == [a, b, d];
  }

  /** One guest posts and the lock receives. */
  lemma FirstHeld(c: Config, a: Request) returns (m1: Mail, m2: Mail)
    requires ValidConfig(c) && '=' !in c.header && GoodRequest(a) && a.key != "" && !Alarming(RequestText(a))
    ensures m1 == Posted(c, EMPTY, a) && m1.device == Idle && m1.evicted == 0 && m1.log == [Entry(a, Unanswered)]
    ensures m2 == Received(c, m1) && MailInv(c, m2)
    ensures m2.log == [Entry(a, Unanswered)] && m2.evicted == 0 && m2.device == Holding(RequestText(a), 0)
  {
    m1 := Posted(c, EMPTY, a);
    m2 := Received(c, m1);
    PostTaken(c, EMPTY, a);
    OldestIs(m1.log, 0, 0);
    ReceivedIs(c, m1);
    ReceivedKeeps(c, m1);
  }

  /** Then a second guest posts into a full log. */
  lemma HeldEvicted(c: Config, a: Request, b: Request) returns (m1: Mail, m2: Mail, m3: Mail)
    requires ValidConfig(c) && c.maxlogs == 2 && '=' !in c.header
    requires GoodRequest(a) && GoodRequest(b) && a.key != "" && b.key != "" && a.key != b.key
    requires !Alarming(RequestText(a))
    ensures m1 == Next(c, EMPTY, Post(a)) && Possible(c, m1, Receive) && m2 == Next(c, m1, Receive)
    ensures m3 == Next(c, m2, Post(b))
    ensures MailInv(c, m3) && m3.log == [Entry(a, Unanswered), Entry(b, Unanswered)] && m3.evicted == 1
    ensures m3.device == Holding(RequestText(a), 0)
  {
    m1, m2 := FirstHeld(c, a);
    m3 := SecondEvicts(c, a, b, m2);
  }

  lemma SecondEvicts(c: Config, a: Request, b: Request, m2: Mail) returns (m3: Mail)
    requires MailInv(c, m2) && c.maxlogs == 2 && '=' !in c.header
    requires m2.log == [Entry(a, Unanswered)] && m2.evicted == 0 && m2.device == Holding(RequestText(a), 0)
    requires GoodRequest(b) && b.key != "" && a.key != b.key
    ensures m3 == Posted(c, m2, b) && MailInv(c, m3) && m3.evicted == 1 && m3.device == m2.device
    ensures m3.log == [Entry(a, Unanswered), Entry(b, Unanswered)]
  {
    m3 := Posted(c, m2, b);
    assert !Repeated(m2.log, m2.evicted, b);
    PostTaken(c, m2, b);
  }

  /** With room for one request, a second guest of the same second evicts the request the lock holds, is
      given the response to it, and reads it as his own. */
  lemma MisroutedAfterEviction(c: Config, a: Request, b: Request, response: string, time: string)
    requires ValidConfig(c) && c.maxlogs == 2 && '=' !in c.header
    requires GoodRequest(a) && GoodRequest(b) && a.key != "" && b.key != "" && a.key != b.key
    requires !Alarming(RequestText(a))
    requires a.unixtime == b.unixtime && Underscored(a.key) !in LOCALS
    requires GoodAnswer(Answered(Underscored(response), time)) && response != ""
    ensures var events, e := [Post(a), Receive, Post(b)], Respond(response, "", time);
            && Runs(c, EMPTY, events)
            && var m := After(c, EMPTY, events);
               && m.log == [Entry(a, Unanswered), Entry(b, Unanswered)] && m.device == Holding(RequestText(a), 0)
               && m.evicted == 1 && Possible(c, m, e)
               && GetResponse(c, Next(c, m, e).file, b.key, Decimal(b.unixtime)) == Underscored(response)
  {
    var e := Respond(response, "", time);
    var m1, m2, m3 := HeldEvicted(c, a, b);
    RunOfThree(c, EMPTY, m1, m2, Post(a), Receive, Post(b));
    RequestReadable(a);
    TakerIs(c, m3, e);
    assert OpenOfTime(m3.log[1], a.unixtime);
    NothingStarts(b);
    OldestTakingIs(m3.log, 1, Underscored(a.key), "", a.unixtime, 1);
    StrangerReads(c, m3, e, 1);
  }
}
