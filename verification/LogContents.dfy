/** The log as it lies in the file: a header line and one line for each live request.
    What the loops of RequestLog find in such a file. */
module LogContents {
  import opened Text
  import opened Record
  import opened LogLine
  import opened RequestLog

  // ---------------------------------------------------------------- writing and reading back

  lemma FirstLine(l: string, rest: string)
    requires '\n' !in l
    ensures ReadLines(l + "\n" + rest) == [l + "\n"] + ReadLines(rest)
  {
    var s := l + "\n" + rest;
    ValueEnd("", l, '\n', rest);
    assert "" + l + ['\n'] + rest == s;
    assert s[..|l| + 1] == l + "\n" && s[|l| + 1..] == rest;
  }

  lemma {:induction false} ReadWrite(lines: seq<string>)
    requires forall i | 0 <= i < |lines| :: '\n' !in Trim(lines[i])
    ensures |ReadLines(WriteLines(lines))| == |lines|
    ensures forall i | 0 <= i < |lines| :: ReadLines(WriteLines(lines))[i] == Trim(lines[i]) + "\n"
  {
    if lines != [] {
      var rest := lines[1..];
      FirstLine(Trim(lines[0]), WriteLines(rest));
      assert WriteLines(lines) == Trim(lines[0]) + "\n" + WriteLines(rest);
      forall i | 0 <= i < |lines[1..]| ensures '\n' !in Trim(lines[1..][i]) {
        assert lines[1..][i] == lines[i + 1];
      }
      ReadWrite(lines[1..]);
    }
  }

  // ---------------------------------------------------------------- one stored line

  /** A request whose text stays on one line and keeps its ends when trimmed. */
  predicate GoodRequest(r: Request) {
    PlainRequest(r) && '\n' !in RequestText(r) && Solid(r.key) && Solid(r.reqtime) && r.reqtime != ""
  }

  predicate GoodAnswer(a: Answer) {
    PlainAnswer(a)
    && (a.Answered? ==> '\n' !in a.response && '\n' !in a.time && Solid(a.time) && a.time != "")
  }

  lemma TextEnds(r: Request)
    ensures |RequestText(r)| > 0 && RequestText(r)[0] == 'k'
    ensures r.reqtime != "" ==> RequestText(r)[|RequestText(r)| - 1] == r.reqtime[|r.reqtime| - 1]
  {
    HeadThenTime(r);
  }

  lemma LineShape(r: Request, a: Answer)
    requires GoodRequest(r) && GoodAnswer(a)
    ensures var l := LineText(r, a); l != "" && '\n' !in l && Trim(l) == l && Trim(l + "\n") == l
  {
    TextEnds(r);
    TrimSolid(LineText(r, a));
    TrimLine(LineText(r, a));
  }

  /** The newline counts as part of the line's last field. */
  function EolRequest(r: Request, a: Answer): Request {
    if a.Unanswered? then r.(reqtime := r.reqtime + "\n") else r
  }

  function EolAnswer(a: Answer): Answer {
    if a.Answered? then a.(time := a.time + "\n") else a
  }

  lemma EolLine(r: Request, a: Answer)
    requires GoodRequest(r) && GoodAnswer(a)
    ensures LineText(r, a) + "\n" == LineText(EolRequest(r, a), EolAnswer(a))
    ensures PlainRequest(EolRequest(r, a)) && PlainAnswer(EolAnswer(a))
  {
    HeadThenTime(r);
    HeadThenTime(r.(reqtime := r.reqtime + "\n"));
  }

  lemma Needle(name: Name, w: string)
    ensures Lower(NameText(name) + "=" + w) == NameText(name) + "=" + Lower(w)
  {
    LowerName(name);
    LowerConcat(NameText(name) + "=", w);
  }

  lemma EolSays(a: Answer, name: Name, w: string)
    ensures Says(EolAnswer(a), name, w) <==> Says(a, name, w)
  {}

  /** A stored line contains `key=w` or `unixtime=w` exactly when w starts that value or the response says it. */
  lemma StoredHas(r: Request, a: Answer, name: Name, w: string)
    requires GoodRequest(r) && GoodAnswer(a) && RoutingName(name) && ';' !in w
    ensures HasNoCase(LineText(r, a) + "\n", NameText(name) + "=" + w)
            <==> Lower(w) <= Lower(FieldValue(r, name)) || Says(a, name, w)
  {
    EolLine(r, a);
    Needle(name, w);
    LowerKeeps(w, ';');
    EolSays(a, name, w);
    LineHas(EolRequest(r, a), EolAnswer(a), name, Lower(w));
  }

  lemma KeyNeedle(w: string)
    ensures "key=" + w == NameText(Key) + "=" + w
  {}

  lemma TimeNeedle(w: string)
    ensures "unixtime=" + w == NameText(Unixtime) + "=" + w
  {}

  lemma StoredHasKey(r: Request, a: Answer, w: string)
    requires GoodRequest(r) && GoodAnswer(a) && ';' !in w
    ensures HasNoCase(LineText(r, a) + "\n", "key=" + w) <==> Lower(w) <= Lower(r.key) || Says(a, Key, w)
  {
    KeyNeedle(w);
    StoredHas(r, a, Key, w);
  }

  lemma StoredHasTime(r: Request, a: Answer, w: string)
    requires GoodRequest(r) && GoodAnswer(a) && ';' !in w
    ensures HasNoCase(LineText(r, a) + "\n", "unixtime=" + w)
            <==> Lower(w) <= Lower(Decimal(r.unixtime)) || Says(a, Unixtime, w)
  {
    TimeNeedle(w);
    StoredHas(r, a, Unixtime, w);
  }

  lemma ResponseNeedle()
    ensures Lower("response=") == NameText(Response) + "="
  {}

  lemma StoredAnswered(r: Request, a: Answer)
    requires GoodRequest(r) && GoodAnswer(a)
    ensures HasNoCase(LineText(r, a) + "\n", "response=") <==> a.Answered?
  {
    EolLine(r, a);
    ResponseNeedle();
    LineAnswered(EolRequest(r, a), EolAnswer(a));
  }

  lemma StoredResponse(r: Request, a: Answer)
    requires GoodRequest(r) && GoodAnswer(a)
    ensures GetVar(LineText(r, a) + "\n", NameText(Response)) == if a.Answered? then a.response else ""
  {
    EolLine(r, a);
    if a.Answered? {
      ResponseRoundTrip(EolRequest(r, a), a.response, a.time + "\n");
    } else {
      LineAnswered(EolRequest(r, a), EolAnswer(a));
      NotMentioned(LineText(r, a) + "\n", Response);
    }
  }

  lemma NotMentioned(s: string, name: Name)
    requires !Mentions(s, NameText(name))
    ensures Plain(NameText(name)) && GetVar(s, NameText(name)) == ""
  {
    NameWritten(name);
    LowerEquals(NameText(name));
    LastIndexOfLast(Lower(s), NameText(name) + "=", 0);
    ContainsAt(Lower(s), NameText(name) + "=");
  }

  lemma StoredIsRecord(r: Request, a: Answer)
    requires GoodRequest(r) && GoodAnswer(a)
    ensures IsRecord(LineText(r, a) + "\n")
  {
    StoredHasKey(r, a, "");
    StoredHasTime(r, a, "");
    assert "key=" + "" == "key=" && "unixtime=" + "" == "unixtime=";
  }

  // ---------------------------------------------------------------- the whole file

  /** An accepted request and the answer the lock has given it. */
  datatype Entry = Entry(request: Request, answer: Answer)

  predicate GoodEntry(e: Entry) {
    GoodRequest(e.request) && GoodAnswer(e.answer)
  }

  function EntryText(e: Entry): string {
    LineText(e.request, e.answer)
  }

  predicate StoredAt(lines: seq<string>, live: seq<Entry>, i: nat)
    requires |lines| == |live| + 1 && i < |live|
  {
    GoodEntry(live[i]) && lines[i + 1] == EntryText(live[i]) + "\n"
  }

  /** After the header the lines hold the live entries in order. */
  predicate Stores(lines: seq<string>, live: seq<Entry>) {
    |lines| == |live| + 1 && forall i | 0 <= i < |live| :: StoredAt(lines, live, i)
  }

  lemma StoredTrim(lines: seq<string>, live: seq<Entry>, i: nat)
    requires Stores(lines, live) && i < |live|
    ensures Trim(lines[i + 1]) == EntryText(live[i])
  {
    assert StoredAt(lines, live, i);
    LineShape(live[i].request, live[i].answer);
  }

  lemma StoredLine(lines: seq<string>, live: seq<Entry>, i: nat)
    requires Stores(lines, live) && i < |live|
    ensures HasNoCase(lines[i + 1], "response=") <==> live[i].answer.Answered?
  {
    assert StoredAt(lines, live, i);
    StoredAnswered(live[i].request, live[i].answer);
  }

  // ---------------------------------------------------------------- put_line_to_file

  /** How many lines the eviction loop removes, of n from index i on. */
  function Removals(n: nat, i: nat, maxlogs: int): nat {
    if i >= n || n <= maxlogs then 0
    else if n - maxlogs <= (n - i + 1) / 2 then n - maxlogs else (n - i + 1) / 2
  }

  /** Since its index moves on while the lines move up, the loop removes every other line from index i on,
      until few enough are left or the lines are used up. */
  lemma {:induction false} EvictIs(lines: seq<string>, i: nat, maxlogs: int)
    ensures var k := Removals(|lines|, i, maxlogs);
            var kept := Evict(lines, i, maxlogs);
            && |kept| == |lines| - k
            && forall j | 0 <= j < |kept| ::
                 kept[j] == lines[if j < i then j else if j < i + k then 2 * j - i + 1 else j + k]
    decreases |lines|
  {
    if i < |lines| && |lines| > maxlogs {
      var rest := lines[..i] + lines[i + 1..];
      EvictIs(rest, i + 1, maxlogs);
      assert Removals(|lines|, i, maxlogs) == 1 + Removals(|rest|, i + 1, maxlogs);
      assert forall j | 0 <= j < |rest| :: rest[j] == if j < i then lines[j] else lines[j + 1];
    }
  }

  // ---------------------------------------------------------------- check_if_file_correct

  lemma {:induction false} KeepAll(lines: seq<string>, i: nat)
    requires forall j | i <= j < |lines| :: IsRecord(lines[j])
    ensures KeepRecords(lines, i) == lines
    decreases |lines| - i
  {
    if i < |lines| {
      KeepAll(lines, i + 1);
    }
  }

  /** The lines that have a key and a unixtime. */
  function Records(lines: seq<string>): seq<string> {
    if lines == [] then [] else (if IsRecord(lines[0]) then [lines[0]] else []) + Records(lines[1..])
  }

  /** Of all lines it keeps just those that contain both texts, in any case. */
  lemma {:induction false} RecordsHave(lines: seq<string>, line: string)
    ensures line in Records(lines) <==>
              line in lines && Contains(Lower(line), "key=") && Contains(Lower(line), "unixtime=")
  {
    RecordTexts();
    if lines != [] {
      RecordsHave(lines[1..], line);
      assert lines == [lines[0]] + lines[1..];
    }
  }

  lemma RecordTexts()
    ensures Lower("key=") == "key=" && Lower("unixtime=") == "unixtime="
  {}

  /** Removing lines while moving the index on keeps exactly the records after it, in order. */
  lemma {:induction false} KeepIsFilter(lines: seq<string>, i: nat)
    requires i <= |lines|
    ensures KeepRecords(lines, i) == lines[..i] + Records(lines[i..])
    decreases |lines| - i
  {
    if i == |lines| {
      assert lines[..i] + [] == lines;
    } else {
      assert lines[i..][1..] == lines[i + 1..];
      if IsRecord(lines[i]) {
        KeepIsFilter(lines, i + 1);
        assert lines[..i + 1] + Records(lines[i + 1..]) == lines[..i] + ([lines[i]] + Records(lines[i + 1..]));
      } else {
        var rest := lines[..i] + lines[i + 1..];
        KeepIsFilter(rest, i);
        assert rest[..i] == lines[..i] && rest[i..] == lines[i + 1..];
      }
    }
  }

  lemma {:induction false} RecordsAll(lines: seq<string>)
    ensures |Records(lines)| <= |lines|
    ensures |Records(lines)| == |lines| <==> Records(lines) == lines
  {
    if lines != [] {
      RecordsAll(lines[1..]);
    }
  }

  /** On any file, check_if_file_correct keeps exactly the header lines and the lines with a key and a
      unixtime, in order, and rewrites the file only if it drops a line. */
  lemma CheckExact(c: Config, content: string)
    requires c.logline <= |ReadLines(content)|
    ensures var lines := ReadLines(content);
            var kept := lines[..c.logline] + Records(lines[c.logline..]);
            CheckFile(c, Present(content)) == if kept == lines then Present(content) else Present(WriteLines(kept))
  {
    var lines := ReadLines(content);
    KeepIsFilter(lines, c.logline);
    RecordsAll(lines[c.logline..]);
    assert lines == lines[..c.logline] + lines[c.logline..];
  }

  /** check_if_file_correct leaves a correct log alone. */
  lemma CheckIsNoOp(c: Config, content: string, live: seq<Entry>)
    requires c.logline == 1 && Stores(ReadLines(content), live)
    ensures CheckFile(c, Present(content)) == Present(content)
  {
    var lines := ReadLines(content);
    forall j | 1 <= j < |lines| ensures IsRecord(lines[j]) {
      assert StoredAt(lines, live, j - 1);
      StoredIsRecord(live[j - 1].request, live[j - 1].answer);
    }
    KeepAll(lines, 1);
  }

  // ---------------------------------------------------------------- get_request_from_file

  lemma {:induction false} FirstUnansweredIs(lines: seq<string>, i: nat, k: nat)
    requires i <= k <= |lines|
    requires forall j | i <= j < k :: HasNoCase(lines[j], "response=")
    requires k < |lines| ==> !HasNoCase(lines[k], "response=")
    ensures FirstUnanswered(lines, i) == if k < |lines| then k else -1
    decreases k - i
  {
    if i < k {
      FirstUnansweredIs(lines, i + 1, k);
    }
  }

  /** The first live entry from i on that has no answer. */
  function FirstOpen(live: seq<Entry>, i: nat): (k: nat)
    requires i <= |live|
    ensures i <= k <= |live|
    ensures k < |live| ==> live[k].answer.Unanswered?
    ensures forall j | i <= j < k :: live[j].answer.Answered?
    decreases |live| - i
  {
    if i == |live| || live[i].answer.Unanswered? then i else FirstOpen(live, i + 1)
  }

  lemma FirstUnansweredExact(lines: seq<string>, live: seq<Entry>)
    requires Stores(lines, live)
    ensures var k := FirstOpen(live, 0); FirstUnanswered(lines, 1) == if k < |live| then k + 1 else -1
  {
    var k := FirstOpen(live, 0);
    forall j | 1 <= j < k + 1 ensures HasNoCase(lines[j], "response=") {
      StoredLine(lines, live, j - 1);
    }
    if k < |live| {
      StoredLine(lines, live, k);
    }
    FirstUnansweredIs(lines, 1, k + 1);
  }

  // ---------------------------------------------------------------- set_response_in_file

  lemma {:induction false} FirstTakingIs(lines: seq<string>, i: nat, k: nat, ukey: string, ukeyz: string, time: string)
    requires i <= k <= |lines| && (k < |lines| ==> TakesResponse(lines[k], ukey, ukeyz, time))
    requires forall j | i <= j < k :: !TakesResponse(lines[j], ukey, ukeyz, time)
    ensures FirstTaking(lines, i, ukey, ukeyz, time) == if k < |lines| then k else -1
    decreases k - i
  {
    if i < k {
      FirstTakingIs(lines, i + 1, k, ukey, ukeyz, time);
    }
  }

  /** The value of the variable whose name is $_ukey: nothing, unless a local has that name. */
  predicate VariableNamed(ukey: string, value: string) {
    ukey !in LOCALS ==> value == ""
  }

  /** The local variables of set_response_in_file when it evaluates $$_ukey. */
  const LOCALS := {"_file", "_ukey", "_unixtime", "_response", "logline", "reqtime", "key", "dev", "lines"}

  lemma DigitsKept(n: nat)
    ensures Lower(Decimal(n)) == Decimal(n) && ';' !in Decimal(n) && ' ' !in Decimal(n)
  {
    assert forall i | 0 <= i < |Decimal(n)| :: Digit(Decimal(n)[i]);
  }

  /** The test of set_response_in_file on a stored line. */
  lemma TakesIff(e: Entry, ukey: string, ukeyz: string, unixtime: nat)
    requires GoodEntry(e) && ';' !in ukey && (ukeyz == "" || Lower(ukey) <= Lower(e.request.key))
    ensures TakesResponse(EntryText(e) + "\n", ukey, ukeyz, Decimal(unixtime))
            <==> e.answer.Unanswered? && Decimal(unixtime) <= Decimal(e.request.unixtime)
  {
    StoredHasKey(e.request, e.answer, "");
    StoredHasKey(e.request, e.answer, ukey);
    DigitsKept(unixtime);
    DigitsKept(e.request.unixtime);
    StoredHasTime(e.request, e.answer, Decimal(unixtime));
    StoredAnswered(e.request, e.answer);
  }

  /** No answer yet, and a unixtime that starts with the given one. */
  predicate OpenOfTime(e: Entry, unixtime: nat) {
    e.answer.Unanswered? && Decimal(unixtime) <= Decimal(e.request.unixtime)
  }

  /** The first live entry from i on that is open and of the given time. */
  function FirstOfTime(live: seq<Entry>, i: nat, unixtime: nat): (k: nat)
    requires i <= |live|
    ensures i <= k <= |live|
    ensures k < |live| ==> OpenOfTime(live[k], unixtime)
    ensures forall j | i <= j < k :: !OpenOfTime(live[j], unixtime)
    decreases |live| - i
  {
    if i == |live| || OpenOfTime(live[i], unixtime) then i else FirstOfTime(live, i + 1, unixtime)
  }

  /** A line that is answered or of another time does not take the response, whatever the keys. */
  lemma LineRefuses(lines: seq<string>, live: seq<Entry>, i: nat, ukey: string, ukeyz: string, unixtime: nat)
    requires Stores(lines, live) && i < |live| && !OpenOfTime(live[i], unixtime)
    ensures !TakesResponse(lines[i + 1], ukey, ukeyz, Decimal(unixtime))
  {
    assert StoredAt(lines, live, i);
    TakesIff(live[i], "", "", unixtime);
    StoredHasKey(live[i].request, live[i].answer, "");
    assert HasNoCase(lines[i + 1], "key=" + "");
  }

  lemma LineTakes(lines: seq<string>, live: seq<Entry>, i: nat, ukey: string, ukeyz: string, unixtime: nat)
    requires Stores(lines, live) && i < |live| && OpenOfTime(live[i], unixtime)
    requires ';' !in ukey && (ukeyz == "" || Lower(ukey) <= Lower(live[i].request.key))
    ensures TakesResponse(lines[i + 1], ukey, ukeyz, Decimal(unixtime))
  {
    assert StoredAt(lines, live, i);
    TakesIff(live[i], ukey, ukeyz, unixtime);
  }

  /** Whatever request the lock answers, and whatever its key, the response goes to the first unanswered
      live request of that second: the key test never excludes a line. */
  lemma FirstTakingExact(lines: seq<string>, live: seq<Entry>, ukey: string, ukeyz: string, unixtime: nat)
    requires Stores(lines, live) && ';' !in ukey
    requires var k := FirstOfTime(live, 0, unixtime);
             ukeyz == "" || (k < |live| && Lower(ukey) <= Lower(live[k].request.key))
    ensures var k := FirstOfTime(live, 0, unixtime);
            FirstTaking(lines, 1, ukey, ukeyz, Decimal(unixtime)) == if k < |live| then k + 1 else -1
  {
    var k := FirstOfTime(live, 0, unixtime);
    if k < |live| {
      LineTakes(lines, live, k, ukey, ukeyz, unixtime);
    }
    FirstTakingAt(lines, live, k, ukey, ukeyz, unixtime);
  }

  lemma FirstTakingAt(lines: seq<string>, live: seq<Entry>, k: nat, ukey: string, ukeyz: string, unixtime: nat)
    requires Stores(lines, live) && k <= |live| && forall j | 0 <= j < k :: !OpenOfTime(live[j], unixtime)
    requires k < |live| ==> TakesResponse(lines[k + 1], ukey, ukeyz, Decimal(unixtime))
    ensures FirstTaking(lines, 1, ukey, ukeyz, Decimal(unixtime)) == if k < |live| then k + 1 else -1
  {
    forall j | 1 <= j < k + 1 ensures !TakesResponse(lines[j], ukey, ukeyz, Decimal(unixtime)) {
      LineRefuses(lines, live, j - 1, ukey, ukeyz, unixtime);
    }
    FirstTakingIs(lines, 1, k + 1, ukey, ukeyz, Decimal(unixtime));
  }

  // ---------------------------------------------------------------- get_response_from_file

  /** The text test by which a poll takes a line for its own: key and unixtime start those of the request,
      or are said in the response. */
  predicate Matches(e: Entry, key: string, unixtime: nat) {
    && (Lower(key) <= Lower(e.request.key) || Says(e.answer, Key, key))
    && (Decimal(unixtime) <= Decimal(e.request.unixtime) || Says(e.answer, Unixtime, Decimal(unixtime)))
  }

  function FirstMatch(live: seq<Entry>, i: nat, key: string, unixtime: nat): (k: nat)
    requires i <= |live|
    ensures i <= k <= |live|
    ensures k < |live| ==> Matches(live[k], key, unixtime)
    ensures forall j | i <= j < k :: !Matches(live[j], key, unixtime)
    decreases |live| - i
  {
    if i == |live| || Matches(live[i], key, unixtime) then i else FirstMatch(live, i + 1, key, unixtime)
  }

  lemma {:induction false} FirstConcerningIs(lines: seq<string>, i: nat, k: nat, key: string, time: string)
    requires i <= k <= |lines|
    requires forall j | i <= j < k :: !Concerns(lines[j], key, time)
    requires k < |lines| ==> Concerns(lines[k], key, time)
    ensures FirstConcerning(lines, i, key, time) == if k < |lines| then k else -1
    decreases k - i
  {
    if i < k {
      FirstConcerningIs(lines, i + 1, k, key, time);
    }
  }

  lemma ConcernsIff(e: Entry, key: string, unixtime: nat)
    requires GoodEntry(e) && ';' !in key
    ensures Concerns(EntryText(e) + "\n", key, Decimal(unixtime)) <==> Matches(e, key, unixtime)
  {
    DigitsKept(unixtime);
    DigitsKept(e.request.unixtime);
    StoredHasKey(e.request, e.answer, key);
    StoredHasTime(e.request, e.answer, Decimal(unixtime));
  }

  lemma FirstConcerningExact(lines: seq<string>, live: seq<Entry>, key: string, unixtime: nat)
    requires Stores(lines, live) && ';' !in key
    ensures var k := FirstMatch(live, 0, key, unixtime);
            FirstConcerning(lines, 1, key, Decimal(unixtime)) == if k < |live| then k + 1 else -1
  {
    var k := FirstMatch(live, 0, key, unixtime);
    forall j | 1 <= j <= |live|
      ensures Concerns(lines[j], key, Decimal(unixtime)) <==> Matches(live[j - 1], key, unixtime)
    {
      assert StoredAt(lines, live, j - 1);
      ConcernsIff(live[j - 1], key, unixtime);
    }
    FirstConcerningIs(lines, 1, k + 1, key, Decimal(unixtime));
  }

  /** What a guest is shown for a stored entry. */
  function AnswerReply(a: Answer): string {
    if a.Unanswered? || a.response == "" then "processed" else a.response
  }

  lemma ReplyAt(c: Config, content: string, key: string, time: string, k: nat, response: string)
    requires c.logline == 1 && FirstConcerning(ReadLines(content), 1, key, time) == k
    requires GetVar(ReadLines(content)[k], NameText(Response)) == response
    ensures GetResponse(c, Present(content), key, time) == if response == "" then "processed" else response
  {}

  lemma StoredReply(lines: seq<string>, live: seq<Entry>, k: nat)
    requires Stores(lines, live) && k < |live|
    ensures Plain(NameText(Response))
    ensures GetVar(lines[k + 1], NameText(Response)) == if live[k].answer.Answered? then live[k].answer.response else ""
  {
    assert StoredAt(lines, live, k);
    StoredResponse(live[k].request, live[k].answer);
  }

  /** A poll answers for the first live request that its key and time start, and for no other. */
  lemma GetResponseExact(c: Config, content: string, live: seq<Entry>, key: string, unixtime: nat)
    requires c.logline == 1 && Stores(ReadLines(content), live) && ';' !in key
    ensures var k := FirstMatch(live, 0, key, unixtime);
            GetResponse(c, Present(content), key, Decimal(unixtime))
            == if k < |live| then AnswerReply(live[k].answer) else "not found"
  {
    var k := FirstMatch(live, 0, key, unixtime);
    FirstConcerningExact(ReadLines(content), live, key, unixtime);
    if k < |live| {
      assert StoredAt(ReadLines(content), live, k);
      StoredReply(ReadLines(content), live, k);
      ReplyAt(c, content, key, Decimal(unixtime), k + 1, if live[k].answer.Answered? then live[k].answer.response else "");
    }
  }
}
