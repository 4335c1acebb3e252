/** The log file as a whole: the header, then the requests that have not been evicted, each with the
    answer it has been given, in whatever order the answers came. */
module Storage {
  import opened Text
  import opened Record
  import opened LogLine
  import opened RequestLog
  import opened LogContents

  predicate ValidConfig(c: Config) {
    c.logline == 1 && c.maxlogs > c.logline && '\n' !in c.header && c.header != ""
  }

  /** The lines are the header and then the live entries. */
  predicate IsLog(c: Config, lines: seq<string>, live: seq<Entry>) {
    Stores(lines, live) && Trim(lines[0]) == Trim(c.header)
  }

  /** The file holds the header and a contiguous suffix of the history, bounded by maxlogs. */
  predicate FileInv(c: Config, f: FileState, log: seq<Entry>, evicted: nat) {
    ValidConfig(c)
    && evicted <= |log|
    && (f.Absent? ==> log == [])
    && (f.Present? ==> IsLog(c, ReadLines(f.content), log[evicted..]))
    && 1 + |log| - evicted <= c.maxlogs
  }

  lemma FileInvHolds(c: Config, content: string, log: seq<Entry>, evicted: nat)
    requires ValidConfig(c) && evicted <= |log|
    requires IsLog(c, ReadLines(content), log[evicted..]) && 1 + |log| - evicted <= c.maxlogs
    ensures FileInv(c, Present(content), log, evicted)
  {}

  lemma FileEntry(c: Config, f: FileState, log: seq<Entry>, evicted: nat, i: nat)
    requires FileInv(c, f, log, evicted) && evicted <= i < |log|
    ensures f.Present? && GoodEntry(log[i])
  {
    assert log[evicted..][i - evicted] == log[i];
    assert StoredAt(ReadLines(f.content), log[evicted..], i - evicted);
  }

  // ---------------------------------------------------------------- rewriting the file

  predicate TrimsTo(lines: seq<string>, live: seq<Entry>, i: nat)
    requires |lines| == |live| + 1 && i < |live|
  {
    GoodEntry(live[i]) && Trim(lines[i + 1]) == EntryText(live[i])
  }

  /** Lines that trim to the header and to the texts of the live entries store them. */
  lemma StoreLog(c: Config, lines: seq<string>, live: seq<Entry>)
    requires '\n' !in c.header
    requires |lines| == |live| + 1 && Trim(lines[0]) == Trim(c.header)
    requires forall i | 0 <= i < |live| :: TrimsTo(lines, live, i)
    ensures IsLog(c, ReadLines(WriteLines(lines)), live)
  {
    forall i | 0 <= i < |lines| ensures '\n' !in Trim(lines[i]) {
      OneLine(c, lines, live, i);
    }
    ReadWrite(lines);
    HeaderTrims(c.header);
    StoredAgain(lines, ReadLines(WriteLines(lines)), live);
  }

  lemma OneLine(c: Config, lines: seq<string>, live: seq<Entry>, i: nat)
    requires '\n' !in c.header && |lines| == |live| + 1 && Trim(lines[0]) == Trim(c.header) && i < |lines|
    requires i > 0 ==> TrimsTo(lines, live, i - 1)
    ensures '\n' !in Trim(lines[i])
  {
    if i == 0 {
      TrimKeepsFree(c.header, '\n');
    } else {
      LineShape(live[i - 1].request, live[i - 1].answer);
    }
  }

  lemma HeaderTrims(header: string)
    ensures Trim(Trim(header) + "\n") == Trim(header)
  {
    TrimTwice(header);
    TrimLine(Trim(header));
  }

  lemma StoredAgain(lines: seq<string>, stored: seq<string>, live: seq<Entry>)
    requires |lines| == |live| + 1 == |stored|
    requires forall i | 0 <= i < |live| :: TrimsTo(lines, live, i)
    requires forall i | 0 <= i < |lines| :: stored[i] == Trim(lines[i]) + "\n"
    ensures Stores(stored, live)
  {
    forall i | 0 <= i < |live| ensures StoredAt(stored, live, i) {
      assert TrimsTo(lines, live, i);
    }
  }

  lemma CheckKeepsLog(c: Config, f: FileState, log: seq<Entry>, evicted: nat)
    requires FileInv(c, f, log, evicted)
    ensures CheckFile(c, f) == f
  {
    if f.Present? {
      CheckIsNoOp(c, f.content, log[evicted..]);
    }
  }

  // ---------------------------------------------------------------- a post

  lemma EvictOne(lines: seq<string>, maxlogs: int)
    requires 1 <= |lines| <= maxlogs + 1 && maxlogs > 1
    ensures Evict(lines, 1, maxlogs) == if |lines| > maxlogs then lines[..1] + lines[2..] else lines
  {}

  lemma CreateKeepsLog(c: Config, f: FileState, log: seq<Entry>, evicted: nat)
    requires FileInv(c, f, log, evicted)
    ensures FileInv(c, CreateFile(c, f), log, evicted) && CreateFile(c, f).Present?
  {
    if f.Absent? {
      IndexOfFirst(c.header, "\n", 0);
      var i := IndexOf(c.header, "\n", 0);
      if i >= 0 {
        CharAt(c.header, "\n", i, 0);
        assert false;
      }
      assert ReadLines(c.header) == [c.header];
    }
  }

  function KeptLines(c: Config, all: seq<string>): seq<string>
    requires |all| > 1
  {
    if |all| > c.maxlogs then all[..1] + all[2..] else all
  }

  /** put_line_to_file refuses the line, or appends it and evicts one line when the log is full. */
  lemma PutOutcome(c: Config, f: FileState, line: string)
    requires c.logline == 1 && c.maxlogs > 1 && 1 <= |ReadLines(CreateFile(c, f).content)| <= c.maxlogs
    ensures var created := CreateFile(c, f);
            PutLine(c, f, line) == (created, "error:repeat")
            || PutLine(c, f, line) == (Present(WriteLines(KeptLines(c, ReadLines(created.content) + [line]))), "success")
  {
    EvictOne(ReadLines(CreateFile(c, f).content) + [line], c.maxlogs);
  }

  /** What a post does to the file: at most the header is new, or the request is appended. */
  lemma PostOutcome(c: Config, f: FileState, log: seq<Entry>, evicted: nat, r: Request)
    requires FileInv(c, f, log, evicted) && GoodRequest(r)
    ensures var (g, reply) := SaveRequest(c, f, r);
            var created := CreateFile(c, f);
            && |ReadLines(created.content)| > 0
            && if reply == "success" then
                 g == Present(WriteLines(KeptLines(c, ReadLines(created.content) + [RequestText(r)])))
               else g == f || g == created
  {
    CreateKeepsLog(c, f, log, evicted);
    LineShape(r, Unanswered);
    if r.key != "" {
      PutOutcome(c, f, RequestText(r));
    }
  }

  /** How many requests have left the file after one more has been accepted. */
  function EvictedAfter(c: Config, log: seq<Entry>, evicted: nat): nat {
    evicted + if |log| - evicted + 2 > c.maxlogs then 1 else 0
  }

  lemma AppendedLine(c: Config, lines: seq<string>, log: seq<Entry>, evicted: nat, r: Request,
                     kept: seq<string>, evicted': nat, live': seq<Entry>, i: nat)
    requires evicted <= |log| && IsLog(c, lines, log[evicted..]) && GoodRequest(r)
    requires evicted' == EvictedAfter(c, log, evicted) && c.maxlogs > 1
    requires kept == KeptLines(c, lines + [RequestText(r)])
    requires live' == (log + [Entry(r, Unanswered)])[evicted'..] && i < |live'|
    ensures |kept| == |live'| + 1 && TrimsTo(kept, live', i)
  {
    var live, j := log[evicted..], i + evicted' - evicted;
    assert kept[i + 1] == (lines + [RequestText(r)])[j + 1];
    if j < |live| {
      assert live'[i] == live[j] && StoredAt(lines, live, j);
      StoredTrim(lines, live, j);
    } else {
      LineShape(r, Unanswered);
    }
  }

  /** An accepted post appends the request and, when the log is full, evicts exactly the oldest line. */
  lemma AppendStored(c: Config, lines: seq<string>, log: seq<Entry>, evicted: nat, r: Request,
                     kept: seq<string>, evicted': nat)
    requires ValidConfig(c) && evicted <= |log| && IsLog(c, lines, log[evicted..]) && GoodRequest(r)
    requires evicted' == EvictedAfter(c, log, evicted) && kept == KeptLines(c, lines + [RequestText(r)])
    ensures IsLog(c, ReadLines(WriteLines(kept)), (log + [Entry(r, Unanswered)])[evicted'..])
  {
    var live' := (log + [Entry(r, Unanswered)])[evicted'..];
    forall i | 0 <= i < |live'| ensures |kept| == |live'| + 1 && TrimsTo(kept, live', i) {
      AppendedLine(c, lines, log, evicted, r, kept, evicted', live', i);
    }
    StoreLog(c, kept, live');
  }

  /** A post and the check after it keep the file's shape, and the log grows exactly on "success". */
  lemma PostKeepsFile(c: Config, f: FileState, log: seq<Entry>, evicted: nat, r: Request)
    requires FileInv(c, f, log, evicted) && GoodRequest(r)
    ensures var (g, reply) := SaveRequest(c, f, r);
            if reply == "success"
            then FileInv(c, CheckFile(c, g), log + [Entry(r, Unanswered)], EvictedAfter(c, log, evicted))
            else FileInv(c, CheckFile(c, g), log, evicted)
  {
    var (g, reply) := SaveRequest(c, f, r);
    PostOutcome(c, f, log, evicted, r);
    CreateKeepsLog(c, f, log, evicted);
    if reply == "success" {
      AcceptedKeepsFile(c, g, ReadLines(CreateFile(c, f).content), log, evicted, r);
      CheckKeepsLog(c, g, log + [Entry(r, Unanswered)], EvictedAfter(c, log, evicted));
    } else {
      CheckKeepsLog(c, g, log, evicted);
    }
  }

  lemma AcceptedKeepsFile(c: Config, g: FileState, lines: seq<string>, log: seq<Entry>, evicted: nat, r: Request)
    requires ValidConfig(c) && evicted <= |log| && 1 + |log| - evicted <= c.maxlogs && GoodRequest(r)
    requires IsLog(c, lines, log[evicted..]) && g == Present(WriteLines(KeptLines(c, lines + [RequestText(r)])))
    ensures FileInv(c, g, log + [Entry(r, Unanswered)], EvictedAfter(c, log, evicted))
  {
    var kept, evicted' := KeptLines(c, lines + [RequestText(r)]), EvictedAfter(c, log, evicted);
    AppendStored(c, lines, log, evicted, r, kept, evicted');
    FileInvHolds(c, WriteLines(kept), log + [Entry(r, Unanswered)], evicted');
  }

  // ---------------------------------------------------------------- a receive

  /** The first request in the file without an answer, or the length of the history. */
  function OldestOpen(log: seq<Entry>, evicted: nat): (k: nat)
    requires evicted <= |log|
    ensures evicted <= k <= |log|
    ensures k < |log| ==> log[k].answer.Unanswered?
    ensures forall j | evicted <= j < k :: log[j].answer.Answered?
  {
    var k := FirstOpen(log[evicted..], 0);
    assert forall j | evicted <= j < |log| :: log[j] == log[evicted..][j - evicted];
    evicted + k
  }

  lemma OldestIs(log: seq<Entry>, evicted: nat, k: nat)
    requires evicted <= k <= |log| && (k < |log| ==> log[k].answer.Unanswered?)
    requires forall j | evicted <= j < k :: log[j].answer.Answered?
    ensures OldestOpen(log, evicted) == k
  {}

  /** The lock is sent the oldest unanswered request in the file, or "empty". */
  lemma ReceiveExact(c: Config, f: FileState, log: seq<Entry>, evicted: nat)
    requires FileInv(c, f, log, evicted)
    ensures var k := OldestOpen(log, evicted);
            GetRequest(c, f, c.device, c.device) == if k < |log| then RequestText(log[k].request) else "empty"
  {
    if f.Present? {
      var lines, live := ReadLines(f.content), log[evicted..];
      var k := FirstOpen(live, 0);
      FirstUnansweredExact(lines, live);
      if k < |live| {
        StoredTrim(lines, live, k);
      }
    }
  }

  // ---------------------------------------------------------------- a response

  lemma AnsweredLine(r: Request, response: string, time: string)
    ensures RequestText(r) + ";response=" + response + ";time=" + time == LineText(r, Answered(response, time))
  {}

  lemma SetResponseAt(c: Config, f: FileState, lines: seq<string>, k: nat, ukey: string, ukeyz: string,
                      unixtime: string, response: string, time: string)
    requires f.Present? && lines == ReadLines(f.content) && c.logline == 1
    requires k < |lines| && FirstTaking(lines, 1, ukey, ukeyz, unixtime) == k
    ensures SetResponse(c, f, c.device, c.device, ukey, ukeyz, unixtime, response, time)
            == (Present(WriteLines(lines[k := Trim(lines[k]) + ";response=" + response + ";time=" + time])), "success")
  {}

  /** The file after line k has been given an answer. */
  function AnsweredFile(lines: seq<string>, live: seq<Entry>, k: nat, answer: Answer): FileState
    requires k < |live| && |lines| == |live| + 1
  {
    Present(WriteLines(lines[k + 1 := EntryText(live[k].(answer := answer))]))
  }

  /** A response goes to the first line that takes it: that line, and no other, is answered. */
  lemma ResponseStored(c: Config, f: FileState, lines: seq<string>, live: seq<Entry>, k: nat, ukey: string,
                       ukeyz: string, unixtime: string, response: string, time: string)
    requires c.logline == 1 && f.Present? && lines == ReadLines(f.content) && Stores(lines, live)
    requires k < |live| && live[k].answer.Unanswered? && FirstTaking(lines, 1, ukey, ukeyz, unixtime) == k + 1
    ensures SetResponse(c, f, c.device, c.device, ukey, ukeyz, unixtime, response, time)
            == (AnsweredFile(lines, live, k, Answered(response, time)), "success")
  {
    StoredTrim(lines, live, k);
    AnsweredLine(live[k].request, response, time);
    SetResponseAt(c, f, lines, k + 1, ukey, ukeyz, unixtime, response, time);
  }

  /** Replacing a line by its answered form answers that entry. */
  lemma AnswerStored(c: Config, lines: seq<string>, live: seq<Entry>, k: nat, answer: Answer)
    requires IsLog(c, lines, live) && '\n' !in c.header && k < |live| && answer.Answered? && GoodAnswer(answer)
    ensures IsLog(c, ReadLines(AnsweredFile(lines, live, k, answer).content), live[k := live[k].(answer := answer)])
  {
    var entry := live[k].(answer := answer);
    assert StoredAt(lines, live, k);
    LineShape(entry.request, entry.answer);
    var lines', live' := lines[k + 1 := EntryText(entry)], live[k := entry];
    forall i | 0 <= i < |live'| ensures TrimsTo(lines', live', i) {
      if i != k {
        assert StoredAt(lines, live, i);
        StoredTrim(lines, live, i);
      }
    }
    StoreLog(c, lines', live');
  }

  lemma UpdateDrop(log: seq<Entry>, evicted: nat, i: nat, e: Entry)
    requires evicted <= i < |log|
    ensures log[i := e][evicted..] == log[evicted..][i - evicted := e]
  {}

  /** The file after request i of the history has been given an answer in it. */
  function FileAnswered(f: FileState, log: seq<Entry>, evicted: nat, i: nat, answer: Answer): FileState
    requires evicted <= i < |log| && f.Present? && |ReadLines(f.content)| == |log| - evicted + 1
  {
    AnsweredFile(ReadLines(f.content), log[evicted..], i - evicted, answer)
  }

  lemma FileLines(c: Config, f: FileState, log: seq<Entry>, evicted: nat)
    requires FileInv(c, f, log, evicted) && evicted < |log|
    ensures f.Present? && |ReadLines(f.content)| == |log| - evicted + 1
  {}

  lemma AnswerKeepsFile(c: Config, f: FileState, log: seq<Entry>, evicted: nat, i: nat, answer: Answer)
    requires FileInv(c, f, log, evicted) && evicted <= i < |log| && answer.Answered? && GoodAnswer(answer)
    ensures f.Present? && |ReadLines(f.content)| == |log| - evicted + 1
    ensures FileInv(c, FileAnswered(f, log, evicted, i, answer), log[i := log[i].(answer := answer)], evicted)
  {
    var lines, live := ReadLines(f.content), log[evicted..];
    AnswerStored(c, lines, live, i - evicted, answer);
    UpdateDrop(log, evicted, i, log[i].(answer := answer));
    FileInvHolds(c, AnsweredFile(lines, live, i - evicted, answer).content,
                 log[i := log[i].(answer := answer)], evicted);
  }

  // ---------------------------------------------------------------- a poll

  /** The request in the file a poll with this key and time is answered for, or the length of the history. */
  function PolledIndex(log: seq<Entry>, evicted: nat, key: string, unixtime: nat): (k: nat)
    requires evicted <= |log|
    ensures evicted <= k <= |log|
    ensures k < |log| ==> Matches(log[k], key, unixtime)
    ensures forall j | evicted <= j < k :: !Matches(log[j], key, unixtime)
  {
    var k := FirstMatch(log[evicted..], 0, key, unixtime);
    assert forall j | evicted <= j < |log| :: log[j] == log[evicted..][j - evicted];
    evicted + k
  }

  lemma PollLive(c: Config, f: FileState, log: seq<Entry>, evicted: nat, key: string, unixtime: nat)
    requires FileInv(c, f, log, evicted) && ';' !in key
    ensures var k := FirstMatch(log[evicted..], 0, key, unixtime);
            GetResponse(c, f, key, Decimal(unixtime))
            == if k < |log[evicted..]| then AnswerReply(log[evicted..][k].answer) else "not found"
  {
    if f.Present? {
      GetResponseExact(c, f.content, log[evicted..], key, unixtime);
    }
  }

  /** A poll answers for the first request in the file that its key and time start, and for no other. */
  lemma PollExact(c: Config, f: FileState, log: seq<Entry>, evicted: nat, key: string, unixtime: nat)
    requires FileInv(c, f, log, evicted) && ';' !in key
    ensures var k := PolledIndex(log, evicted, key, unixtime);
            GetResponse(c, f, key, Decimal(unixtime))
            == if k < |log| then AnswerReply(log[k].answer) else "not found"
  {
    PollLive(c, f, log, evicted, key, unixtime);
    var live := log[evicted..];
    var k := FirstMatch(live, 0, key, unixtime);
    assert k < |live| ==> live[k] == log[evicted + k];
  }
}
