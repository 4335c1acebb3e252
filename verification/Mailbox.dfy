/** The transponder protocol: guests post requests and poll for responses, one lock receives the
    oldest unanswered request and posts its response. Each HTTP call is one step. */
module Mailbox {
  import opened Text
  import opened Record
  import opened LogLine
  import opened RequestLog
  import opened LogContents
  import opened Storage

  /** What the lock is doing: nothing, or working on the line it was sent for request `idx`. */
  datatype Device = Idle | Holding(line: string, idx: nat)

  /** `log` is the history of all accepted requests, of which the first `evicted` have left the file;
      `next` is the oldest live request without an answer. Only `file` and the held line are real. */
  datatype State = State(file: FileState, log: seq<Entry>, evicted: nat, next: nat, device: Device)

  datatype Event =
    | Post(request: Request)
    | Receive
    | Respond(response: string, ukeyz: string, time: string)
    // calls of others, whose key is not that of the device they name
    | OtherReceive(key: string, dev: string)
    | OtherRespond(key: string, dev: string, ukey: string, value: string, unixtime: string, text: string, at: string)

  const START := State(Absent, [], 0, 0, Idle)

  // ---------------------------------------------------------------- steps

  /** Spaces become underscores on the way to the transponder. */
  function Underscored(s: string): (r: string)
    ensures |r| == |s| && forall i | 0 <= i < |s| :: r[i] == if s[i] == ' ' then '_' else s[i]
  {
    seq(|s|, i requires 0 <= i < |s| => if s[i] == ' ' then '_' else s[i])
  }

  function PostStep(c: Config, s: State, r: Request): State {
    var (f, reply) := SaveRequest(c, s.file, r);
    var g := CheckFile(c, f);
    if reply == "success" then
      var evicted := s.evicted + if |s.log| - s.evicted + 2 > c.maxlogs then 1 else 0;
      s.(file := g, log := s.log + [Entry(r, Unanswered)], evicted := evicted,
         next := if s.next < evicted then evicted else s.next)
    else s.(file := g)
  }

  /** What the lock takes for the error page of a web server, wherever it stands in the text received. */
  predicate Alarming(s: string) {
    Contains(s, "404 not found") || Contains(s, "Parse error") || Contains(s, "syntax error")
  }

  /** The lock drops the text received, or holds it as the next request. */
  predicate Dropped(line: string) {
    Alarming(line) || line == "empty" || GetArgval(line, NameText(Unixtime)) == ""
  }

  function ReceiveStep(c: Config, s: State): State {
    var line := GetRequest(c, s.file, c.device, c.device);
    var s' := s.(file := CheckFile(c, s.file));
    if Dropped(line) then s' else s'.(device := Holding(line, s.next))
  }

  /** What set_response is asked for the held line. */
  function RespondCall(c: Config, f: FileState, line: string, e: Event): (FileState, string)
    requires e.Respond?
  {
    SetResponse(c, f, c.device, c.device, Underscored(GetArgval(line, NameText(Key))), e.ukeyz,
                Underscored(GetArgval(line, NameText(Unixtime))), Underscored(e.response), e.time)
  }

  function RespondStep(c: Config, s: State, e: Event): State
    requires e.Respond? && s.device.Holding? && s.device.idx < |s.log|
  {
    var i := s.device.idx;
    s.(file := RespondCall(c, s.file, s.device.line, e).0,
       log := s.log[i := s.log[i].(answer := Answered(Underscored(e.response), e.time))],
       next := i + 1, device := Idle)
  }

  /** What a call of another does to the file: the check that follows every receive, or a response. */
  function OtherCall(c: Config, f: FileState, e: Event): FileState
    requires e.OtherReceive? || e.OtherRespond?
  {
    if e.OtherReceive? then CheckFile(c, f)
    else SetResponse(c, f, e.key, e.dev, e.ukey, e.value, e.unixtime, e.text, e.at).0
  }

  predicate Enabled(c: Config, s: State, e: Event) {
    match e
    case Post(r) =>
      GoodRequest(r)
      // the request the lock is working on is not evicted
      && (s.device.Holding? && |s.log| - s.evicted + 2 > c.maxlogs ==> s.evicted < s.device.idx)
    case Receive => s.device.Idle?
    case Respond(response, ukeyz, time) =>
      s.device.Holding? && s.device.idx < |s.log|
      && GoodAnswer(Answered(Underscored(response), time))
      && VariableNamed(Underscored(GetArgval(s.device.line, NameText(Key))), ukeyz)
    case OtherReceive(key, dev) => key != dev
    case OtherRespond(key, dev, _, _, _, _, _) => key != dev
  }

  function Step(c: Config, s: State, e: Event): State
    requires Enabled(c, s, e)
  {
    match e
    case Post(r) => PostStep(c, s, r)
    case Receive => ReceiveStep(c, s)
    case Respond(_, _, _) => RespondStep(c, s, e)
    case _ => s.(file := OtherCall(c, s.file, e))
  }

  // ---------------------------------------------------------------- the invariant

  /** All requests older than `next` that are still in the file are answered, and no others. */
  predicate AnsweredBefore(s: State) {
    forall i | s.evicted <= i < |s.log| :: s.log[i].answer.Answered? <==> i < s.next
  }

  /** The file holds the header and a contiguous suffix of the history, bounded by maxlogs, and all
      answered lines come before all unanswered ones. */
  predicate LogInv(c: Config, s: State) {
    FileInv(c, s.file, s.log, s.evicted) && s.evicted <= s.next <= |s.log| && AnsweredBefore(s)
  }

  /** The lock works on the oldest unanswered request, which is still in the file. */
  predicate DeviceInv(s: State) {
    s.device.Holding? ==>
      s.device.idx == s.next < |s.log| && s.device.line == RequestText(s.log[s.next].request)
  }

  predicate Inv(c: Config, s: State) {
    LogInv(c, s) && DeviceInv(s)
  }

  /** A live entry of the log is good, and answered exactly when it is older than `next`. */
  lemma LiveEntry(c: Config, s: State, i: nat)
    requires LogInv(c, s) && s.evicted <= i < |s.log|
    ensures s.file.Present? && GoodEntry(s.log[i]) && (s.log[i].answer.Answered? <==> i < s.next)
  {
    FileEntry(c, s.file, s.log, s.evicted, i);
  }

  // ---------------------------------------------------------------- Post

  /** A post keeps the shape of the log, also when it evicts the line the lock works on. */
  lemma PostKeepsLog(c: Config, s: State, r: Request)
    requires LogInv(c, s) && GoodRequest(r)
    ensures LogInv(c, PostStep(c, s, r))
  {
    PostKeepsFile(c, s.file, s.log, s.evicted, r);
    var (f, reply) := SaveRequest(c, s.file, r);
    var s' := PostStep(c, s, r);
    if reply == "success" {
      assert s'.evicted == EvictedAfter(c, s.log, s.evicted);
      assert s'.log == s.log + [Entry(r, Unanswered)];
    }
  }

  // ---------------------------------------------------------------- texts the lock drops

  /** Names and values hold no separator, so a text without one lies in one of them. */
  lemma {:induction false} JoinContains(fs: seq<Field>, w: string)
    requires |fs| > 0 && Plain(w)
    ensures Contains(Join(fs), w)
            <==> exists i :: 0 <= i < |fs| && (Contains(fs[i].name, w) || Contains(fs[i].value, w))
  {
    var f, rest := fs[0], fs[1..];
    assert FieldText(f) == f.name + ['='] + f.value;
    ContainsSplit(f.name, '=', f.value, w);
    if |fs| > 1 {
      JoinContains(rest, w);
      ContainsSplit(FieldText(f), ';', Join(rest), w);
      assert forall i | 0 <= i < |rest| :: rest[i] == fs[i + 1];
      assert forall i | 0 < i < |fs| :: fs[i] == rest[i - 1];
    }
  }

  /** A text with a space or a newline lies in no written name and in no number. */
  lemma FieldContains(r: Request, w: string, i: nat)
    requires Phrase(w) && i < |RequestFields(r)|
    ensures |Names(r)| == |RequestFields(r)| && RequestFields(r)[i].value == FieldValue(r, Names(r)[i])
    ensures !Contains(RequestFields(r)[i].name, w) && !Contains(Decimal(r.unixtime), w)
  {
    NamedFields(r);
    var ch := if ' ' in w then ' ' else '\n';
    DigitsKept(r.unixtime);
    ContainsChars(NameText(Names(r)[i]), w, ch);
    ContainsChars(Decimal(r.unixtime), w, ch);
  }

  /** A text occurs in what the guest or the server has filled in. */
  predicate FilledIn(r: Request, w: string) {
    Contains(r.key, w) || Contains(r.cmd, w) || Contains(r.arg, w) || Contains(r.ext, w) || Contains(r.reqtime, w)
  }

  predicate Phrase(w: string) {
    Plain(w) && (' ' in w || '\n' in w)
  }

  /** Such a text occurs in a request exactly when it occurs in one of the fields filled in. */
  lemma PhraseIff(r: Request, w: string)
    requires Phrase(w)
    ensures Contains(RequestText(r), w) <==> FilledIn(r, w)
  {
    var fs := RequestFields(r);
    JoinContains(fs, w);
    forall i | 0 <= i < |fs|
      ensures |Names(r)| == |fs|
      ensures Contains(fs[i].name, w) || Contains(fs[i].value, w)
              <==> !Names(r)[i].Unixtime? && Contains(FieldValue(r, Names(r)[i]), w)
    {
      FieldContains(r, w, i);
    }
    NamedValues(r, w);
  }

  /** The values of the named fields are those of the request. */
  lemma NamedValues(r: Request, w: string)
    requires w != ""
    ensures (exists i :: 0 <= i < |Names(r)| && !Names(r)[i].Unixtime? && Contains(FieldValue(r, Names(r)[i]), w))
            <==> FilledIn(r, w)
  {
    ContainsChars("", w, w[0]);
    NameIndex(r, Key); NameIndex(r, Cmd); NameIndex(r, Arg); NameIndex(r, Ext); NameIndex(r, Reqtime);
    forall name: Name | name.Key? || name.Cmd? || name.Arg? || name.Ext? || name.Reqtime?
      ensures Contains(FieldValue(r, name), w) ==> name in Names(r)
    {
      if Contains(FieldValue(r, name), w) {
        assert Names(r)[FieldIndex(r, name)] == name;
      }
    }
  }

  /** The lock drops a request exactly when one of its fields holds one of the three phrases. */
  lemma AlarmingIff(r: Request)
    ensures Alarming(RequestText(r))
            <==> Alarming(r.key) || Alarming(r.cmd) || Alarming(r.arg) || Alarming(r.ext) || Alarming(r.reqtime)
  {
    Phrases();
    PhraseIff(r, "404 not found");
    PhraseIff(r, "Parse error");
    PhraseIff(r, "syntax error");
  }

  /** The text of a request stays on one line exactly when none of its fields has a newline. */
  lemma OneLineIff(r: Request)
    ensures '\n' in RequestText(r)
            <==> '\n' in r.key || '\n' in r.cmd || '\n' in r.arg || '\n' in r.ext || '\n' in r.reqtime
  {
    assert ['\n'][0] == '\n';
    PhraseIff(r, ['\n']);
    ContainsChar(RequestText(r), '\n');
    ContainsChar(r.key, '\n');
    ContainsChar(r.cmd, '\n');
    ContainsChar(r.arg, '\n');
    ContainsChar(r.ext, '\n');
    ContainsChar(r.reqtime, '\n');
  }

  lemma Phrases()
    ensures Phrase("404 not found") && Phrase("Parse error") && Phrase("syntax error")
  {
    assert "404 not found"[3] == "Parse error"[5] == "syntax error"[6] == ' ';
  }

  /** A text without a unixtime is dropped, too. */
  lemma TimelessDropped(line: string)
    requires !Contains(line, "unixtime=")
    ensures Dropped(line)
  {
    assert NameText(Unixtime) + "=" == "unixtime=";
  }

  // ---------------------------------------------------------------- Receive

  lemma OldestIsNext(c: Config, s: State)
    requires LogInv(c, s)
    ensures OldestOpen(s.log, s.evicted) == s.next
  {
    OldestIs(s.log, s.evicted, s.next);
  }

  lemma RequestReadable(r: Request)
    requires GoodRequest(r)
    ensures RequestText(r) != "empty"
    ensures GetArgval(RequestText(r), NameText(Unixtime)) == Decimal(r.unixtime) != ""
    ensures GetArgval(RequestText(r), NameText(Key)) == r.key
  {
    TextEnds(r);
    ArgvalOfRequest(r, Unixtime);
    ArgvalOfRequest(r, Key);
    DecimalSolid(r.unixtime);
    TrimSolid(r.key);
  }

  /** After receiving, the lock holds the oldest unanswered request exactly when there is one and its text
      has none of the three phrases; nothing else changes. */
  lemma ReceiveOutcome(c: Config, s: State)
    requires LogInv(c, s) && s.device.Idle?
    ensures ReceiveStep(c, s)
            == s.(device := if s.next < |s.log| && !Alarming(RequestText(s.log[s.next].request))
                            then Holding(RequestText(s.log[s.next].request), s.next) else Idle)
  {
    OldestIsNext(c, s);
    ReceiveExact(c, s.file, s.log, s.evicted);
    CheckKeepsLog(c, s.file, s.log, s.evicted);
    if s.next < |s.log| {
      LiveEntry(c, s, s.next);
      RequestReadable(s.log[s.next].request);
    }
  }

  lemma ReceiveKeepsInv(c: Config, s: State)
    requires Inv(c, s) && s.device.Idle?
    ensures Inv(c, ReceiveStep(c, s))
  {
    ReceiveOutcome(c, s);
    SameLog(c, s, ReceiveStep(c, s));
  }

  lemma SameLog(c: Config, s: State, s': State)
    requires LogInv(c, s) && s'.(device := s.device) == s
    ensures LogInv(c, s')
  {}

  // ---------------------------------------------------------------- Respond

  /** A key whose underscored form names a local variable holds no space. */
  lemma LocalKey(key: string)
    requires Solid(key) && Underscored(key) in LOCALS
    ensures Underscored(key) == key
  {
    var u := Underscored(key);
    assert forall i | 0 < i < |u| :: u[i] != '_' by {
      assert u == "_file" || u == "_ukey" || u == "_unixtime" || u == "_response" || u == "logline"
          || u == "reqtime" || u == "key" || u == "dev" || u == "lines";
    }
    forall i | 0 <= i < |key| ensures key[i] == u[i] {
      assert key[0] != ' ';
    }
  }

  lemma UnderscoredFree(s: string)
    requires ';' !in s
    ensures ';' !in Underscored(s)
  {}

  lemma NoSpaces(s: string)
    requires ' ' !in s
    ensures Underscored(s) == s
  {}

  /** What the lock sends back for a request it has read from a line. */
  lemma CallParts(r: Request, ukeyz: string)
    requires GoodRequest(r) && VariableNamed(Underscored(r.key), ukeyz)
    ensures GetArgval(RequestText(r), NameText(Key)) == r.key && ';' !in Underscored(r.key)
    ensures Underscored(GetArgval(RequestText(r), NameText(Unixtime))) == Decimal(r.unixtime)
    ensures ukeyz == "" || Underscored(r.key) == r.key
  {
    RequestReadable(r);
    DigitsKept(r.unixtime);
    NoSpaces(Decimal(r.unixtime));
    UnderscoredFree(r.key);
    if Underscored(r.key) in LOCALS {
      LocalKey(r.key);
    }
  }

  /** A response for the second of a request, all older requests in the file being answered or of
      another second, is stored in that request's line, whatever the key. */
  lemma ResponseLands(c: Config, f: FileState, log: seq<Entry>, evicted: nat, i: nat, ukey: string, ukeyz: string,
                      unixtime: nat, response: string, time: string)
    requires FileInv(c, f, log, evicted) && evicted <= i < |log| && OpenOfTime(log[i], unixtime)
    requires forall j | evicted <= j < i :: !OpenOfTime(log[j], unixtime)
    requires ';' !in ukey && (ukeyz == "" || Lower(ukey) <= Lower(log[i].request.key))
    ensures f.Present? && |ReadLines(f.content)| == |log| - evicted + 1
    ensures SetResponse(c, f, c.device, c.device, ukey, ukeyz, Decimal(unixtime), response, time)
            == (FileAnswered(f, log, evicted, i, Answered(response, time)), "success")
  {
    FileEntry(c, f, log, evicted, i);
    var lines, live, k := ReadLines(f.content), log[evicted..], i - evicted;
    FirstOfTimeIs(live, k, unixtime);
    FirstTakingExact(lines, live, ukey, ukeyz, unixtime);
    ResponseStored(c, f, lines, live, k, ukey, ukeyz, Decimal(unixtime), response, time);
  }

  lemma FirstOfTimeIs(live: seq<Entry>, k: nat, unixtime: nat)
    requires k < |live| && OpenOfTime(live[k], unixtime) && forall j | 0 <= j < k :: !OpenOfTime(live[j], unixtime)
    ensures FirstOfTime(live, 0, unixtime) == k
  {}

  function AnswerNext(s: State, answer: Answer, f: FileState): State
    requires s.next < |s.log|
  {
    s.(file := f, log := s.log[s.next := s.log[s.next].(answer := answer)], next := s.next + 1, device := Idle)
  }

  lemma AnswerKeepsLog(c: Config, s: State, answer: Answer, f: FileState)
    requires LogInv(c, s) && s.next < |s.log| && answer.Answered? && GoodAnswer(answer)
    requires FileInv(c, f, s.log[s.next := s.log[s.next].(answer := answer)], s.evicted)
    ensures LogInv(c, AnswerNext(s, answer, f))
  {}

  /** The call the lock makes for a request it holds. */
  lemma CallIs(c: Config, f: FileState, r: Request, e: Event)
    requires GoodRequest(r) && e.Respond? && VariableNamed(Underscored(r.key), e.ukeyz)
    ensures RespondCall(c, f, RequestText(r), e)
            == SetResponse(c, f, c.device, c.device, Underscored(r.key), e.ukeyz, Decimal(r.unixtime),
                           Underscored(e.response), e.time)
  {
    CallParts(r, e.ukeyz);
  }

  /** The answer a respond event carries. */
  function AnswerOf(e: Event): Answer
    requires e.Respond?
  {
    Answered(Underscored(e.response), e.time)
  }

  /** The response of a request in the file is stored in its own line when all older requests in the
      file are answered. */
  lemma HeldResponse(c: Config, f: FileState, log: seq<Entry>, evicted: nat, i: nat, e: Event)
    requires FileInv(c, f, log, evicted) && evicted <= i < |log| && log[i].answer.Unanswered?
    requires forall j | evicted <= j < i :: log[j].answer.Answered?
    requires e.Respond? && VariableNamed(Underscored(log[i].request.key), e.ukeyz)
    ensures f.Present? && |ReadLines(f.content)| == |log| - evicted + 1
    ensures RespondCall(c, f, RequestText(log[i].request), e) == (FileAnswered(f, log, evicted, i, AnswerOf(e)), "success")
  {
    var r := log[i].request;
    FileEntry(c, f, log, evicted, i);
    CallParts(r, e.ukeyz);
    CallIs(c, f, r, e);
    ResponseLands(c, f, log, evicted, i, Underscored(r.key), e.ukeyz, r.unixtime, Underscored(e.response), e.time);
  }

  lemma RespondReady(c: Config, s: State, e: Event)
    requires Inv(c, s) && e.Respond? && Enabled(c, s, e)
    ensures s.next < |s.log| && s.log[s.next].answer.Unanswered? && s.device.idx == s.next
    ensures s.device.line == RequestText(s.log[s.next].request)
    ensures GoodAnswer(AnswerOf(e)) && VariableNamed(Underscored(s.log[s.next].request.key), e.ukeyz)
  {
    LiveEntry(c, s, s.next);
    RequestReadable(s.log[s.next].request);
  }

  lemma OlderAnswered(c: Config, s: State)
    requires LogInv(c, s) && s.next < |s.log|
    ensures s.log[s.next].answer.Unanswered? && forall j | s.evicted <= j < s.next :: s.log[j].answer.Answered?
    ensures s.file.Present? && |ReadLines(s.file.content)| == |s.log| - s.evicted + 1
  {
    FileLines(c, s.file, s.log, s.evicted);
  }

  /** The response of the held line is stored in that line. */
  lemma RespondExact(c: Config, s: State, e: Event)
    requires Inv(c, s) && e.Respond? && Enabled(c, s, e)
    ensures s.file.Present? && |ReadLines(s.file.content)| == |s.log| - s.evicted + 1
    ensures RespondCall(c, s.file, s.device.line, e)
            == (FileAnswered(s.file, s.log, s.evicted, s.next, AnswerOf(e)), "success")
  {
    RespondReady(c, s, e);
    OlderAnswered(c, s);
    HeldResponse(c, s.file, s.log, s.evicted, s.next, e);
  }

  lemma RespondOutcome(c: Config, s: State, e: Event)
    requires Inv(c, s) && e.Respond? && Enabled(c, s, e)
    ensures s.file.Present? && |ReadLines(s.file.content)| == |s.log| - s.evicted + 1
    ensures RespondStep(c, s, e) == AnswerNext(s, AnswerOf(e), FileAnswered(s.file, s.log, s.evicted, s.next, AnswerOf(e)))
  {
    RespondExact(c, s, e);
  }

  lemma AnswerNextKeeps(c: Config, s: State, answer: Answer)
    requires LogInv(c, s) && s.next < |s.log| && answer.Answered? && GoodAnswer(answer)
    ensures s.file.Present? && |ReadLines(s.file.content)| == |s.log| - s.evicted + 1
    ensures Inv(c, AnswerNext(s, answer, FileAnswered(s.file, s.log, s.evicted, s.next, answer)))
  {
    AnswerKeepsFile(c, s.file, s.log, s.evicted, s.next, answer);
    AnswerKeepsLog(c, s, answer, FileAnswered(s.file, s.log, s.evicted, s.next, answer));
  }

  lemma RespondKeepsInv(c: Config, s: State, e: Event)
    requires Inv(c, s) && e.Respond? && Enabled(c, s, e)
    ensures Inv(c, RespondStep(c, s, e))
  {
    RespondReady(c, s, e);
    RespondOutcome(c, s, e);
    AnswerNextKeeps(c, s, AnswerOf(e));
  }

  // ---------------------------------------------------------------- every run

  lemma StepKeepsInv(c: Config, s: State, e: Event)
    requires Inv(c, s) && Enabled(c, s, e)
    ensures Inv(c, Step(c, s, e))
  {
    match e
    case Post(r) => PostKeepsInv(c, s, r);
    case Receive => ReceiveKeepsInv(c, s);
    case Respond(_, _, _) => RespondKeepsInv(c, s, e);
    case _ => OtherChangesNothing(c, s, e);
  }

  /** A call of another is answered "access denied" and changes neither the file nor the log. */
  lemma OtherChangesNothing(c: Config, s: State, e: Event)
    requires LogInv(c, s) && Enabled(c, s, e) && (e.OtherReceive? || e.OtherRespond?)
    ensures Step(c, s, e) == s
    ensures e.OtherReceive? ==> GetRequest(c, s.file, e.key, e.dev) == "access denied"
    ensures e.OtherRespond? ==>
              SetResponse(c, s.file, e.key, e.dev, e.ukey, e.value, e.unixtime, e.text, e.at).1 == "access denied"
  {
    CheckKeepsLog(c, s.file, s.log, s.evicted);
  }

  lemma PostKeepsInv(c: Config, s: State, r: Request)
    requires Inv(c, s) && Enabled(c, s, Post(r))
    ensures Inv(c, PostStep(c, s, r))
  {
    PostKeepsLog(c, s, r);
  }

  /** A run from s: every event is enabled where it happens. */
  predicate Runs(c: Config, s: State, events: seq<Event>)
    decreases |events|
  {
    events == [] || (Enabled(c, s, events[0]) && Runs(c, Step(c, s, events[0]), events[1..]))
  }

  function After(c: Config, s: State, events: seq<Event>): State
    requires Runs(c, s, events)
    decreases |events|
  {
    if events == [] then s else After(c, Step(c, s, events[0]), events[1..])
  }

  /** The invariant holds after every run, of any length and any interleaving. */
  lemma {:induction false} RunKeepsInv(c: Config, s: State, events: seq<Event>)
    requires Inv(c, s) && Runs(c, s, events)
    ensures Inv(c, After(c, s, events))
    decreases |events|
  {
    if events != [] {
      StepKeepsInv(c, s, events[0]);
      RunKeepsInv(c, Step(c, s, events[0]), events[1..]);
    }
  }
}
