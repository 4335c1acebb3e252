/** Who gets which response: the main results about runs of the transponder protocol. */
module Delivery {
  import opened Text
  import opened Record
  import opened LogLine
  import opened RequestLog
  import opened LogContents
  import opened Storage
  import opened Mailbox
  import opened RepeatGuard

  // ---------------------------------------------------------------- history only grows

  /** Requests are only appended, answers are final, and lines leave the file from the front. */
  predicate Grows(s: State, s': State) {
    |s.log| <= |s'.log| && s.evicted <= s'.evicted && s.next <= s'.next
    && forall i | 0 <= i < |s.log| ::
         s'.log[i].request == s.log[i].request && (s.log[i].answer.Answered? ==> s'.log[i] == s.log[i])
  }

  lemma StepGrows(c: Config, s: State, e: Event)
    requires Inv(c, s) && Enabled(c, s, e)
    ensures Grows(s, Step(c, s, e))
  {
    match e
    case Post(r) =>
    case Receive =>
    case Respond(_, _, _) => LiveEntry(c, s, s.next);
    case _ => OtherChangesNothing(c, s, e);
  }

  lemma {:induction false} RunGrows(c: Config, s: State, events: seq<Event>)
    requires Inv(c, s) && Runs(c, s, events)
    ensures Grows(s, After(c, s, events))
    decreases |events|
  {
    if events != [] {
      StepGrows(c, s, events[0]);
      StepKeepsInv(c, s, events[0]);
      RunGrows(c, Step(c, s, events[0]), events[1..]);
    }
  }

  /** At some step of the run the lock, holding the text of request r, gave this answer. */
  predicate LockAnswered(c: Config, s: State, events: seq<Event>, r: Request, a: Answer)
    requires Runs(c, s, events)
    decreases |events|
  {
    events != []
    && ((events[0].Respond? && s.device.Holding? && s.device.line == RequestText(r)
         && a == Answered(Underscored(events[0].response), events[0].time))
        || LockAnswered(c, Step(c, s, events[0]), events[1..], r, a))
  }

  lemma StepAnswers(c: Config, s: State, e: Event, i: nat)
    requires Inv(c, s) && Enabled(c, s, e)
    requires i < |Step(c, s, e).log| && Step(c, s, e).log[i].answer.Answered?
    requires i < |s.log| ==> s.log[i].answer.Unanswered?
    ensures var entry := Step(c, s, e).log[i];
            e.Respond? && s.device.line == RequestText(entry.request)
            && entry.answer == Answered(Underscored(e.response), e.time)
  {}

  /** Every answer in the log was computed by the lock for the very request it stands with. */
  lemma {:induction false} AnswerOrigin(c: Config, s: State, events: seq<Event>, i: nat)
    requires Inv(c, s) && Runs(c, s, events)
    requires i < |After(c, s, events).log| && After(c, s, events).log[i].answer.Answered?
    requires i < |s.log| ==> s.log[i].answer.Unanswered?
    ensures var e := After(c, s, events).log[i]; LockAnswered(c, s, events, e.request, e.answer)
    decreases |events|
  {
    var s1 := Step(c, s, events[0]);
    StepKeepsInv(c, s, events[0]);
    if i < |s1.log| && s1.log[i].answer.Answered? {
      StepAnswers(c, s, events[0], i);
      RunGrows(c, s1, events[1..]);
    } else {
      AnswerOrigin(c, s1, events[1..], i);
    }
  }

  // ---------------------------------------------------------------- a guest's own response

  /** The poll's text test takes no line for that of request i before it comes to that line, or, when
      the line has left the file, at all. */
  predicate Unclaimed(log: seq<Entry>, evicted: nat, i: nat)
    requires i < |log|
  {
    forall j | evicted <= j < (if i < evicted then |log| else i) ::
      !Matches(log[j], log[i].request.key, log[i].request.unixtime)
  }

  function PollOwn(c: Config, s: State, i: nat): string
    requires i < |s.log|
  {
    GetResponse(c, s.file, s.log[i].request.key, Decimal(s.log[i].request.unixtime))
  }

  lemma OwnMatches(e: Entry)
    ensures Matches(e, e.request.key, e.request.unixtime)
  {}

  /** A guest's poll comes to its own line, or to none after the eviction, exactly when no line is taken for it. */
  lemma SeesOwnLineIff(c: Config, s: State, i: nat)
    requires LogInv(c, s) && i < |s.log|
    ensures var k := PolledIndex(s.log, s.evicted, s.log[i].request.key, s.log[i].request.unixtime);
            k == (if i < s.evicted then |s.log| else i) <==> Unclaimed(s.log, s.evicted, i)
  {
    OwnMatches(s.log[i]);
  }

  lemma {:induction false} KeysPlain(c: Config, s: State, events: seq<Event>, i: nat)
    requires Inv(c, s) && Runs(c, s, events)
    requires forall j | 0 <= j < |s.log| :: ';' !in s.log[j].request.key
    requires i < |After(c, s, events).log|
    ensures ';' !in After(c, s, events).log[i].request.key
    decreases |events|
  {
    if events != [] {
      StepKeepsInv(c, s, events[0]);
      KeysPlainStep(c, s, events[0]);
      KeysPlain(c, Step(c, s, events[0]), events[1..], i);
    }
  }

  lemma KeysPlainStep(c: Config, s: State, e: Event)
    requires Enabled(c, s, e) && forall j | 0 <= j < |s.log| :: ';' !in s.log[j].request.key
    ensures forall j | 0 <= j < |Step(c, s, e).log| :: ';' !in Step(c, s, e).log[j].request.key
  {}

  /** In every state a run reaches, a guest's poll says "not found" when its request has been evicted,
      "processed" while it is unanswered, and then exactly the response the lock computed for it. */
  lemma Delivered(c: Config, events: seq<Event>, i: nat)
    requires ValidConfig(c) && Runs(c, START, events)
    requires i < |After(c, START, events).log|
    requires Unclaimed(After(c, START, events).log, After(c, START, events).evicted, i)
    ensures var s := After(c, START, events);
            var e := s.log[i];
            && PollOwn(c, s, i) == (if i < s.evicted then "not found" else AnswerReply(e.answer))
            && (e.answer.Answered? ==> LockAnswered(c, START, events, e.request, e.answer))
  {
    var s := After(c, START, events);
    RunKeepsInv(c, START, events);
    KeysPlain(c, START, events, i);
    PollExact(c, s.file, s.log, s.evicted, s.log[i].request.key, s.log[i].request.unixtime);
    SeesOwnLineIff(c, s, i);
    if s.log[i].answer.Answered? {
      AnswerOrigin(c, START, events, i);
    }
  }

  lemma {:induction false} PrefixSameLength(s: string, t: string)
    requires s <= t && |s| == |t|
    ensures s == t
  {
    assert t[..|s|] == t;
  }

  /** The line is of a key that continues ours, or its response says our key, and it is of our second,
      or its response says our second. */
  predicate Mistakable(e: Entry, q: Request) {
    && (Lower(q.key) <= Lower(e.request.key) || Says(e.answer, Key, q.key))
    && (q.unixtime == e.request.unixtime || Says(e.answer, Unixtime, Decimal(q.unixtime)))
  }

  /** With unixtimes of one width just those lines are mistaken for ours. */
  lemma MistakenIff(e: Entry, q: Request)
    requires |Decimal(q.unixtime)| == |Decimal(e.request.unixtime)|
    ensures Matches(e, q.key, q.unixtime) <==> Mistakable(e, q)
  {
    var r := e.request;
    if Decimal(q.unixtime) <= Decimal(r.unixtime) {
      PrefixSameLength(Decimal(q.unixtime), Decimal(r.unixtime));
    }
    DecimalValue(q.unixtime);
    DecimalValue(r.unixtime);
  }

  /** Distinct (key, second) pairs with no key continuing another, and no response that says them:
      nobody can be mistaken. */
  predicate DistinctGuests(log: seq<Entry>) {
    forall i, j | 0 <= i < |log| && 0 <= j < |log| && i != j ::
      |Decimal(log[i].request.unixtime)| == |Decimal(log[j].request.unixtime)| && !Mistakable(log[j], log[i].request)
  }

  lemma DistinctUnclaimed(s: State, i: nat)
    requires i < |s.log| && DistinctGuests(s.log)
    ensures Unclaimed(s.log, s.evicted, i)
  {
    forall j | s.evicted <= j < |s.log| && j != i
      ensures !Matches(s.log[j], s.log[i].request.key, s.log[i].request.unixtime)
    {
      MistakenIff(s.log[j], s.log[i].request);
    }
  }

  /** Whatever is not "processed" or "not found" is the lock's response to the guest's own request. */
  lemma OwnResponse(c: Config, events: seq<Event>, i: nat)
    requires ValidConfig(c) && Runs(c, START, events)
    requires i < |After(c, START, events).log| && DistinctGuests(After(c, START, events).log)
    ensures var s := After(c, START, events);
            var reply := PollOwn(c, s, i);
            reply != "processed" && reply != "not found" ==>
              s.log[i].answer.Answered? && reply == s.log[i].answer.response
              && LockAnswered(c, START, events, s.log[i].request, s.log[i].answer)
  {
    DistinctUnclaimed(After(c, START, events), i);
    Delivered(c, events, i);
  }

  // ---------------------------------------------------------------- the lock keeps up

  lemma PollsOwn(c: Config, s: State, i: nat)
    requires LogInv(c, s) && s.evicted <= i < |s.log| && Unclaimed(s.log, s.evicted, i)
    ensures PollOwn(c, s, i) == AnswerReply(s.log[i].answer)
  {
    LiveEntry(c, s, i);
    PollExact(c, s.file, s.log, s.evicted, s.log[i].request.key, s.log[i].request.unixtime);
    SeesOwnLineIff(c, s, i);
  }

  lemma RunCons(c: Config, s: State, e: Event, s1: State, rest: seq<Event>)
    requires Enabled(c, s, e) && s1 == Step(c, s, e) && Runs(c, s1, rest)
    ensures Runs(c, s, [e] + rest) && After(c, s, [e] + rest) == After(c, s1, rest)
  {
    assert ([e] + rest)[1..] == rest;
  }

  lemma RunOfTwo(c: Config, s0: State, s1: State, a: Event, b: Event, rest: seq<Event>)
    requires Enabled(c, s0, a) && s1 == Step(c, s0, a) && Enabled(c, s1, b) && Runs(c, Step(c, s1, b), rest)
    ensures Runs(c, s0, [a, b] + rest) && After(c, s0, [a, b] + rest) == After(c, Step(c, s1, b), rest)
  {
    RunCons(c, s1, b, Step(c, s1, b), rest);
    RunCons(c, s0, a, s1, [b] + rest);
    assert [a] + ([b] + rest) == [a, b] + rest;
  }

  /** The lock takes the request, and can answer it with this event. */
  predicate Ready(r: Request, e: Event) {
    !Alarming(RequestText(r)) && e.Respond? && GoodAnswer(AnswerOf(e)) && VariableNamed(Underscored(r.key), e.ukeyz)
  }

  /** In every state a run reaches, an idle lock that receives takes the oldest unanswered request exactly
      when no field of it holds one of the three phrases. */
  lemma TakesOldestIff(c: Config, events: seq<Event>)
    requires ValidConfig(c) && Runs(c, START, events) && After(c, START, events).device.Idle?
    requires After(c, START, events).next < |After(c, START, events).log|
    ensures var s := After(c, START, events);
            var r := s.log[s.next].request;
            ReceiveStep(c, s).device == Holding(RequestText(r), s.next) <==>
              !(Alarming(r.key) || Alarming(r.cmd) || Alarming(r.arg) || Alarming(r.ext) || Alarming(r.reqtime))
  {
    var s := After(c, START, events);
    RunKeepsInv(c, START, events);
    ReceiveOutcome(c, s);
    AlarmingIff(s.log[s.next].request);
  }

  /** An idle lock that receives and responds answers exactly the oldest unanswered request. */
  lemma Progress(c: Config, s: State, e: Event) returns (s1: State, s2: State)
    requires Inv(c, s) && s.device == Idle && s.next < |s.log| && Ready(s.log[s.next].request, e)
    ensures Enabled(c, s, Receive) && s1 == Step(c, s, Receive) && Enabled(c, s1, e) && s2 == Step(c, s1, e)
    ensures Inv(c, s2) && s2.device == Idle && s2.next == s.next + 1 && s2.evicted == s.evicted
    ensures s2.log == s.log[s.next := s.log[s.next].(answer := AnswerOf(e))]
  {
    ReceiveOutcome(c, s);
    ReceiveKeepsInv(c, s);
    LiveEntry(c, s, s.next);
    RequestReadable(s.log[s.next].request);
    s1 := ReceiveStep(c, s);
    s2 := RespondStep(c, s1, e);
    RespondKeepsInv(c, s1, e);
  }

  /** Receive and respond, once for each answer. */
  function Rounds(answers: seq<Event>): seq<Event> {
    if answers == [] then [] else [Receive, answers[0]] + Rounds(answers[1..])
  }

  predicate AllReady(s: State, answers: seq<Event>)
    requires s.next + |answers| <= |s.log|
  {
    forall i | 0 <= i < |answers| :: Ready(s.log[s.next + i].request, answers[i])
  }

  /** The log after the next requests have been given these answers in order. */
  function ServedLog(s: State, answers: seq<Event>): seq<Entry>
    requires s.next + |answers| <= |s.log| && AllReady(s, answers)
  {
    seq(|s.log|, i requires 0 <= i < |s.log| =>
      if s.next <= i < s.next + |answers| then ServedEntry(s, answers, i) else s.log[i])
  }

  function ServedEntry(s: State, answers: seq<Event>, i: nat): Entry
    requires s.next <= i < s.next + |answers| <= |s.log| && AllReady(s, answers)
  {
    assert Ready(s.log[s.next + (i - s.next)].request, answers[i - s.next]);
    s.log[i].(answer := AnswerOf(answers[i - s.next]))
  }

  /** From every reachable state in which the lock is idle, its rounds are possible and answer the
      unanswered requests one by one, oldest first, and change nothing else. */
  lemma {:induction false} RoundsServe(c: Config, s: State, answers: seq<Event>) returns (t: State)
    requires Inv(c, s) && s.device == Idle && s.next + |answers| <= |s.log| && AllReady(s, answers)
    ensures Runs(c, s, Rounds(answers)) && t == After(c, s, Rounds(answers))
    ensures Inv(c, t) && t.device == Idle && t.next == s.next + |answers| && t.evicted == s.evicted
    ensures t.log == ServedLog(s, answers)
    decreases |answers|
  {
    if answers == [] {
      t := s;
    } else {
      var e, rest := answers[0], answers[1..];
      assert answers == [e] + rest && Ready(s.log[s.next + 0].request, answers[0]);
      var s1, s2 := Progress(c, s, e);
      RestReady(s, s2, answers, rest);
      t := RoundsServe(c, s2, rest);
      RunOfTwo(c, s, s1, Receive, e, Rounds(rest));
      ServedFirst(s, answers, s2, rest);
    }
  }

  lemma RestReady(s: State, s2: State, answers: seq<Event>, rest: seq<Event>)
    requires s.next + |answers| <= |s.log| && AllReady(s, answers) && answers != [] && rest == answers[1..]
    requires s2.next == s.next + 1 && |s2.log| == |s.log|
    requires forall i | s2.next <= i < |s.log| :: s2.log[i] == s.log[i]
    ensures AllReady(s2, rest)
  {
    forall i | 0 <= i < |rest| ensures Ready(s2.log[s2.next + i].request, rest[i]) {
      assert Ready(s.log[s.next + (i + 1)].request, answers[i + 1]);
    }
  }

  lemma ServedFirst(s: State, answers: seq<Event>, s2: State, rest: seq<Event>)
    requires s.next + |answers| <= |s.log| && AllReady(s, answers) && answers != [] && rest == answers[1..]
    requires answers[0].Respond? && s2.next == s.next + 1
    requires s2.log == s.log[s.next := s.log[s.next].(answer := AnswerOf(answers[0]))] && AllReady(s2, rest)
    ensures ServedLog(s2, rest) == ServedLog(s, answers)
  {
    forall i | 0 <= i < |s.log| ensures ServedLog(s2, rest)[i] == ServedLog(s, answers)[i] {
      ServedSame(s, answers, s2, rest, i);
    }
  }

  lemma ServedSame(s: State, answers: seq<Event>, s2: State, rest: seq<Event>, i: nat)
    requires s.next + |answers| <= |s.log| && AllReady(s, answers) && answers != [] && rest == answers[1..]
    requires answers[0].Respond? && s2.next == s.next + 1
    requires s2.log == s.log[s.next := s.log[s.next].(answer := AnswerOf(answers[0]))] && AllReady(s2, rest)
    requires i < |s.log|
    ensures ServedLog(s2, rest)[i] == ServedLog(s, answers)[i]
  {
    if s2.next <= i < s2.next + |rest| {
      EntrySame(s, answers, s2, rest, i);
    }
  }

  lemma EntrySame(s: State, answers: seq<Event>, s2: State, rest: seq<Event>, i: nat)
    requires s.next <= i < s.next + |answers| <= |s.log| && AllReady(s, answers)
    requires s2.next <= i < s2.next + |rest| <= |s2.log| && AllReady(s2, rest)
    requires s2.log[i] == s.log[i] && rest[i - s2.next] == answers[i - s.next]
    ensures ServedEntry(s2, rest, i) == ServedEntry(s, answers, i)
  {}

  /** Then a guest reads the response to its own request, when no older line is taken for its own. */
  lemma ServedGuest(c: Config, s: State, answers: seq<Event>, i: nat) returns (t: State)
    requires Inv(c, s) && s.device == Idle && s.next + |answers| <= |s.log| && AllReady(s, answers)
    requires s.next <= i < s.next + |answers|
    requires Unclaimed(ServedLog(s, answers), s.evicted, i)
    ensures Runs(c, s, Rounds(answers)) && t == After(c, s, Rounds(answers)) && |t.log| == |s.log|
    ensures PollOwn(c, t, i) == AnswerReply(AnswerOf(answers[i - s.next]))
  {
    t := RoundsServe(c, s, answers);
    ServedIs(s, answers, i);
    PollsOwn(c, t, i);
  }

  lemma ServedIs(s: State, answers: seq<Event>, i: nat)
    requires s.next <= i < s.next + |answers| <= |s.log| && AllReady(s, answers)
    ensures |ServedLog(s, answers)| == |s.log| && answers[i - s.next].Respond?
    ensures ServedLog(s, answers)[i].answer == AnswerOf(answers[i - s.next])
  {
    assert ServedLog(s, answers)[i] == ServedEntry(s, answers, i);
    assert Ready(s.log[s.next + (i - s.next)].request, answers[i - s.next]);
  }

  // ---------------------------------------------------------------- a request that is never taken

  /** The oldest unanswered request is one the lock does not take. */
  predicate Stuck(s: State) {
    s.device == Idle && s.next < |s.log| && Alarming(RequestText(s.log[s.next].request))
  }

  lemma StuckStep(c: Config, s: State, e: Event)
    requires Inv(c, s) && Stuck(s) && Enabled(c, s, e)
    ensures var t := Step(c, s, e);
            && (!e.Post? ==> t == s) && (t.evicted <= s.next ==> Stuck(t) && t.next == s.next)
            && !e.Respond? && |s.log| <= |t.log| && forall i | 0 <= i < |s.log| :: t.log[i] == s.log[i]
  {
    if e.Receive? {
      ReceiveOutcome(c, s);
    } else if !e.Post? {
      OtherChangesNothing(c, s, e);
    }
  }

  /** However often the lock then receives, nothing changes: it never comes to respond. */
  lemma {:induction false} Blocked(c: Config, s: State, events: seq<Event>)
    requires Inv(c, s) && Stuck(s) && Runs(c, s, events)
    requires forall k | 0 <= k < |events| :: !events[k].Post?
    ensures After(c, s, events) == s && forall k | 0 <= k < |events| :: !events[k].Respond?
    decreases |events|
  {
    if events != [] {
      StuckStep(c, s, events[0]);
      Blocked(c, s, events[1..]);
      assert events == [events[0]] + events[1..];
    }
  }

  /** As long as it is in the file, whatever else is posted: no request younger than it is ever answered. */
  lemma {:induction false} Starved(c: Config, s: State, events: seq<Event>)
    requires Inv(c, s) && Stuck(s) && Runs(c, s, events) && After(c, s, events).evicted <= s.next
    ensures var t := After(c, s, events);
            && Stuck(t) && t.next == s.next && |s.log| <= |t.log|
            && (forall i | 0 <= i < |s.log| :: t.log[i] == s.log[i])
            && (forall i | s.next <= i < |t.log| :: t.log[i].answer.Unanswered?)
    decreases |events|
  {
    if events == [] {
      StuckUnanswered(c, s);
    } else {
      var s1 := Step(c, s, events[0]);
      StuckStep(c, s, events[0]);
      StepKeepsInv(c, s, events[0]);
      RunGrows(c, s1, events[1..]);
      Starved(c, s1, events[1..]);
    }
  }

  lemma StuckUnanswered(c: Config, s: State)
    requires Inv(c, s)
    ensures forall i | s.next <= i < |s.log| :: s.log[i].answer.Unanswered?
  {}

  // ---------------------------------------------------------------- where it goes wrong

  lemma PostTaken(c: Config, s: State, r: Request)
    requires Inv(c, s) && s.device == Idle && GoodRequest(r) && '=' !in c.header && r.key != ""
    requires !Repeated(s.log, s.evicted, r) && |s.log| - s.evicted + 2 <= c.maxlogs
    ensures var t := PostStep(c, s, r);
            Enabled(c, s, Post(r)) && Inv(c, t) && t.log == s.log + [Entry(r, Unanswered)]
            && t.evicted == s.evicted && t.next == s.next && t.device == Idle
  {
    PostAccepted(c, s.file, s.log, s.evicted, r);
    PostKeepsInv(c, s, r);
  }

  function Receives(n: nat): (events: seq<Event>)
    ensures |events| == n && forall k | 0 <= k < n :: events[k] == Receive
  {
    seq(n, k requires 0 <= k < n => Receive)
  }

  lemma {:induction false} ReceivesRun(c: Config, s: State, n: nat)
    requires Inv(c, s) && Stuck(s)
    ensures Runs(c, s, Receives(n))
    decreases n
  {
    if n > 0 {
      StuckStep(c, s, Receive);
      ReceivesRun(c, s, n - 1);
      RunCons(c, s, Receive, s, Receives(n - 1));
      assert [Receive] + Receives(n - 1) == Receives(n);
    }
  }

  /** A request with such a phrase is never answered, however often the lock receives, and the guest who
      posts after it reads "processed" for ever. */
  lemma StuckRun(c: Config, older: Request, own: Request, n: nat)
    requires ValidConfig(c) && c.maxlogs >= 3 && '=' !in c.header
    requires GoodRequest(older) && GoodRequest(own) && own.key != "" && older.key != "" && older.key != own.key
    requires Alarming(RequestText(older))
    ensures var events := [Post(older), Post(own)] + Receives(n);
            && Runs(c, START, events)
            && var s := After(c, START, events);
               && s.log == [Entry(older, Unanswered), Entry(own, Unanswered)] && s.device == Idle
               && PollOwn(c, s, 1) == "processed"
  {
    var s1 := PostStep(c, START, older);
    var s2 := PostStep(c, s1, own);
    PostsToEmpty(c, older, own);
    ReceivesRun(c, s2, n);
    Blocked(c, s2, Receives(n));
    RunOfTwo(c, START, s1, Post(older), Post(own), Receives(n));
    SecondReads(c, s2, Entry(older, Unanswered), own);
  }

  /** Such requests: one of the three phrases as the command or as the argument. */
  lemma ErrorPhrase(r: Request, w: string)
    requires w == "404 not found" || w == "Parse error" || w == "syntax error"
    requires GoodRequest(r)
    ensures GoodRequest(r.(cmd := w)) && Alarming(RequestText(r.(cmd := w)))
    ensures GoodRequest(r.(arg := w)) && Alarming(RequestText(r.(arg := w)))
  {
    Phrases();
    OneLine(w);
    ContainsItself(w);
    PhraseAsField(r, r.(cmd := w), w);
    PhraseAsField(r, r.(arg := w), w);
  }

  lemma OneLine(w: string)
    requires w == "404 not found" || w == "Parse error" || w == "syntax error"
    ensures '\n' !in w
  {}

  lemma PhraseAsField(r: Request, q: Request, w: string)
    requires GoodRequest(r) && Plain(w) && '\n' !in w && Alarming(w) && (q == r.(cmd := w) || q == r.(arg := w))
    ensures GoodRequest(q) && Alarming(RequestText(q))
  {
    OneLineIff(r);
    OneLineIff(q);
    AlarmingIff(q);
  }

  lemma OtherKey(older: Request, own: Request)
    requires older.key != own.key
    ensures !Repeated([Entry(older, Unanswered)], 0, own)
  {}

  lemma PostsToEmpty(c: Config, older: Request, own: Request)
    requires ValidConfig(c) && c.maxlogs >= 3 && '=' !in c.header
    requires GoodRequest(older) && GoodRequest(own) && own.key != "" && older.key != "" && older.key != own.key
    ensures var s1 := PostStep(c, START, older);
            var s2 := PostStep(c, s1, own);
            && Inv(c, s2) && Enabled(c, START, Post(older)) && Enabled(c, s1, Post(own))
            && s2.log == [Entry(older, Unanswered), Entry(own, Unanswered)]
            && s2.evicted == s2.next == 0 && s2.device == Idle
  {
    PostTaken(c, START, older);
    OtherKey(older, own);
    PostTaken(c, PostStep(c, START, older), own);
  }

  lemma RunOfFour(c: Config, s0: State, s1: State, s2: State, s3: State, a: Event, b: Event, d: Event, e: Event)
    requires Enabled(c, s0, a) && s1 == Step(c, s0, a)
    requires Enabled(c, s1, b) && s2 == Step(c, s1, b)
    requires Enabled(c, s2, d) && s3 == Step(c, s2, d)
    requires Enabled(c, s3, e)
    ensures Runs(c, s0, [a, b, d, e]) && After(c, s0, [a, b, d, e]) == Step(c, s3, e)
  {
    RunOfTwo(c, s2, s3, d, e, []);
    RunOfTwo(c, s0, s1, a, b, [d, e] + []);
    assert [a, b] + ([d, e] + []) == [a, b, d, e];
  }

  /** The second of two guests reads the first one's response exactly when his poll takes that line for his own. */
  lemma SecondReads(c: Config, s: State, older: Entry, own: Request)
    requires LogInv(c, s) && s.evicted == 0 && s.log == [older, Entry(own, Unanswered)]
    ensures PollOwn(c, s, 1) == if Matches(older, own.key, own.unixtime) then AnswerReply(older.answer) else "processed"
  {
    LiveEntry(c, s, 1);
    OwnMatches(s.log[1]);
    PollExact(c, s.file, s.log, s.evicted, own.key, own.unixtime);
  }

  /** Two guests post and the lock answers the first: the run, and what the second then reads. */
  lemma TwoGuests(c: Config, older: Request, own: Request, response: string, time: string)
    requires ValidConfig(c) && c.maxlogs >= 3 && '=' !in c.header
    requires GoodRequest(older) && GoodRequest(own) && own.key != "" && older.key != "" && older.key != own.key
    requires Ready(older, Respond(response, "", time)) && response != ""
    ensures var events := [Post(older), Post(own), Receive, Respond(response, "", time)];
            && Runs(c, START, events)
            && var s := After(c, START, events);
               && s.log == [Entry(older, Answered(Underscored(response), time)), Entry(own, Unanswered)]
               && PollOwn(c, s, 1) == if Matches(s.log[0], own.key, own.unixtime) then Underscored(response) else "processed"
  {
    var e := Respond(response, "", time);
    var s1, s2, s3, s4 := FirstAnswered(c, older, own, e);
    RunOfFour(c, START, s1, s2, s3, Post(older), Post(own), Receive, e);
    SecondReads(c, s4, Entry(older, AnswerOf(e)), own);
  }

  lemma FirstAnswered(c: Config, older: Request, own: Request, e: Event)
    returns (s1: State, s2: State, s3: State, s4: State)
    requires ValidConfig(c) && c.maxlogs >= 3 && '=' !in c.header
    requires GoodRequest(older) && GoodRequest(own) && own.key != "" && older.key != "" && older.key != own.key
    requires Ready(older, e)
    ensures Enabled(c, START, Post(older)) && s1 == Step(c, START, Post(older))
    ensures Enabled(c, s1, Post(own)) && s2 == Step(c, s1, Post(own))
    ensures Enabled(c, s2, Receive) && s3 == Step(c, s2, Receive) && Enabled(c, s3, e) && s4 == Step(c, s3, e)
    ensures LogInv(c, s4) && s4.evicted == 0 && s4.log == [Entry(older, AnswerOf(e)), Entry(own, Unanswered)]
  {
    s1 := PostStep(c, START, older);
    s2 := PostStep(c, s1, own);
    PostsToEmpty(c, older, own);
    s3, s4 := Progress(c, s2, e);
  }

  /** A guest whose key starts an older guest's key in the same second is given that guest's response. */
  lemma PrefixLeak(c: Config, older: Request, own: Request, response: string, time: string)
    requires ValidConfig(c) && c.maxlogs >= 3 && '=' !in c.header
    requires GoodRequest(older) && GoodRequest(own) && own.key != "" && older.key != own.key
    requires Lower(own.key) <= Lower(older.key) && own.unixtime == older.unixtime
    requires Ready(older, Respond(response, "", time)) && response != ""
    ensures var events := [Post(older), Post(own), Receive, Respond(response, "", time)];
            && Runs(c, START, events)
            && var s := After(c, START, events);
               |s.log| == 2 && s.log[1] == Entry(own, Unanswered) && PollOwn(c, s, 1) == Underscored(response)
  {
    TwoGuests(c, older, own, response, time);
  }

  /** So is a guest of the same second whose key the response says. */
  lemma ResponseLeak(c: Config, older: Request, own: Request, response: string, time: string)
    requires ValidConfig(c) && c.maxlogs >= 3 && '=' !in c.header
    requires GoodRequest(older) && GoodRequest(own) && own.key != "" && older.key != "" && older.key != own.key
    requires HasNoCase(Underscored(response), "key=" + own.key) && own.unixtime == older.unixtime
    requires Ready(older, Respond(response, "", time)) && response != ""
    ensures var events := [Post(older), Post(own), Receive, Respond(response, "", time)];
            && Runs(c, START, events)
            && var s := After(c, START, events);
               |s.log| == 2 && s.log[1] == Entry(own, Unanswered) && PollOwn(c, s, 1) == Underscored(response)
  {
    Needle(Key, own.key);
    KeyNeedle(own.key);
    TwoGuests(c, older, own, response, time);
  }

  /** What the lock answers to a command it does not know, folded to lower case (SWparser.cpp, lines 241 and 406). */
  function UnknownCommand(cmd: string): string {
    "error: UNKNOWN COMMAND " + Lower(cmd)
  }

  lemma UnderscoredConcat(a: string, b: string)
    ensures Underscored(a + b) == Underscored(a) + Underscored(b)
  {}

  lemma UnknownPrefix(p: string)
    requires p == "error: UNKNOWN COMMAND key="
    ensures Underscored(p) == "error:_UNKNOWN_COMMAND_key="
  {}

  lemma UnknownLower(p: string)
    requires p == "error:_UNKNOWN_COMMAND_key="
    ensures Lower(p) == "error:_unknown_command_key" + "="
  {}

  lemma UnknownText(key: string)
    requires ' ' !in key
    ensures Underscored(UnknownCommand("key=" + key)) == "error:_UNKNOWN_COMMAND_key=" + Lower(key)
  {
    KeyNeedle(key);
    Needle(Key, key);
    assert UnknownCommand("key=" + key) == "error: UNKNOWN COMMAND key=" + Lower(key);
    UnderscoredConcat("error: UNKNOWN COMMAND key=", Lower(key));
    UnknownPrefix("error: UNKNOWN COMMAND key=");
    LowerKeeps(key, ' ');
    NoSpaces(Lower(key));
  }

  lemma LowerTwice(s: string)
    ensures Lower(Lower(s)) == Lower(s)
  {}

  /** A name that ends in "key" is followed by the key, and no response begins there. */
  lemma KeyAfter(n: string, key: string)
    requires '=' !in n && Plain(key) && EndsWith(n, "key")
    ensures Contains(n + "=" + key, NameText(Key) + "=" + key) && !Contains(n + "=" + key, NameText(Response) + "=")
  {
    ContainsField(n, key, NameText(Key), key);
    ContainsField(n, key, NameText(Response), "");
    SuffixChar(n, NameText(Response), 1);
    assert NameText(Response) + "=" + "" == NameText(Response) + "=";
  }

  lemma UnknownEnds(n: string)
    requires n == "error:_unknown_command_key"
    ensures '=' !in n && EndsWith(n, "key")
  {}

  lemma UnknownSays(key: string)
    requires Plain(key) && ' ' !in key
    ensures HasNoCase(Underscored(UnknownCommand("key=" + key)), "key=" + key)
    ensures Readable(Underscored(UnknownCommand("key=" + key)))
  {
    UnknownText(key);
    LowerConcat("error:_UNKNOWN_COMMAND_key=", Lower(key));
    LowerTwice(key);
    UnknownLower("error:_UNKNOWN_COMMAND_key=");
    UnknownEnds("error:_unknown_command_key");
    LowerPlain(key);
    KeyNeedle(key);
    Needle(Key, key);
    KeyAfter("error:_unknown_command_key", Lower(key));
  }

  lemma UnknownGood(key: string, time: string)
    requires Plain(key) && ' ' !in key && '\n' !in key
    requires GoodAnswer(Answered("", time))
    ensures GoodAnswer(Answered(Underscored(UnknownCommand("key=" + key)), time))
  {
    UnknownSays(key);
    UnknownText(key);
    LowerKeeps(key, '\n');
  }

  /** Such a response comes from the lock itself: an unknown command given with a master key, its equals
      sign escaped, names the other guest's key, and the error message repeats it. */
  lemma UnknownCommandLeak(c: Config, older: Request, own: Request, time: string)
    requires ValidConfig(c) && c.maxlogs >= 3 && '=' !in c.header
    requires GoodRequest(older) && GoodRequest(own) && own.key != "" && older.key != "" && older.key != own.key
    requires older.cmd == "key%3D" + own.key && '%' !in RequestText(older.(cmd := own.key))
    requires ' ' !in own.key && '\n' !in own.key && own.unixtime == older.unixtime
    requires !Alarming(RequestText(older)) && Underscored(older.key) !in LOCALS && GoodAnswer(Answered("", time))
    ensures var response := UnknownCommand(RemoteFields(RequestText(older)).cmd);
            var events := [Post(older), Post(own), Receive, Respond(response, "", time)];
            && Runs(c, START, events)
            && var s := After(c, START, events);
               |s.log| == 2 && s.log[1] == Entry(own, Unanswered) && PollOwn(c, s, 1) == Underscored(response)
  {
    EscapedCommand(older, own.key);
    RequestFieldsPlain(own);
    assert PlainField(RequestFields(own)[0]);
    UnknownSays(own.key);
    UnknownGood(own.key, time);
    ResponseLeak(c, older, own, UnknownCommand("key=" + own.key), time);
  }
}
