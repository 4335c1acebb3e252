/** The bounded request log of lock.php: what each function does to the file, as functions of its
    contents, and the index loops that do it. */
module RequestLog {
  import opened Text
  import opened Record

  datatype FileState = Absent | Present(content: string)

  /** The settings of a transponder. They are kept in the header line and do not change here. */
  datatype Config = Config(header: string, maxlogs: int, logline: nat, device: string)

  // ---------------------------------------------------------------- file() and fwrite()

  /** file(): the lines of a text, each with its newline. */
  function ReadLines(c: string): seq<string>
    decreases |c|
  {
    if c == "" then []
    else
      var i := IndexOf(c, "\n", 0);
      if i < 0 then [c] else [c[..i + 1]] + ReadLines(c[i + 1..])
  }

  /** Every line trimmed and ended by a newline. */
  function WriteLines(lines: seq<string>): string {
    if lines == [] then "" else Trim(lines[0]) + "\n" + WriteLines(lines[1..])
  }

  // ---------------------------------------------------------------- what the loops compute

  /** The eviction loop of put_line_to_file: the index moves on although the array has shrunk. */
  function Evict(lines: seq<string>, i: nat, maxlogs: int): seq<string>
    decreases |lines|
  {
    if i < |lines| && |lines| > maxlogs then Evict(lines[..i] + lines[i + 1..], i + 1, maxlogs) else lines
  }

  predicate IsRecord(line: string) {
    HasNoCase(line, "key=") && HasNoCase(line, "unixtime=")
  }

  /** The lines check_if_file_correct keeps, from index i on. */
  function KeepRecords(lines: seq<string>, i: nat): (r: seq<string>)
    ensures |r| <= |lines|
    decreases |lines| - i
  {
    if i >= |lines| then lines
    else if IsRecord(lines[i]) then KeepRecords(lines, i + 1)
    else KeepRecords(lines[..i] + lines[i + 1..], i)
  }

  /** The same request again: the guard in put_line_to_file. */
  predicate Repeats(last: string, line: string) {
    var time, key := GetVar(last, NameText(Unixtime)), GetVar(last, NameText(Key));
    time != "" && key != ""
    && PhpInt(GetVar(line, NameText(Unixtime))) <= PhpInt(time) + 3
    && GetVar(line, NameText(Key)) == key
  }

  /** First line from i on without a response, or -1. */
  function FirstUnanswered(lines: seq<string>, i: nat): (r: int)
    ensures r == -1 || i <= r < |lines|
    decreases |lines| - i
  {
    if i >= |lines| then -1
    else if !HasNoCase(lines[i], "response=") then i
    else FirstUnanswered(lines, i + 1)
  }

  /** The test of set_response_in_file. `ukeyz` is the value of the variable named by $_ukey. */
  predicate TakesResponse(line: string, ukey: string, ukeyz: string, unixtime: string) {
    (HasNoCase(line, "key=" + ukey) || HasNoCase(line, "key=" + ukeyz))
    && HasNoCase(line, "unixtime=" + unixtime) && !HasNoCase(line, "response=")
  }

  function FirstTaking(lines: seq<string>, i: nat, ukey: string, ukeyz: string, unixtime: string): (r: int)
    ensures r == -1 || i <= r < |lines|
    decreases |lines| - i
  {
    if i >= |lines| then -1
    else if TakesResponse(lines[i], ukey, ukeyz, unixtime) then i
    else FirstTaking(lines, i + 1, ukey, ukeyz, unixtime)
  }

  predicate Concerns(line: string, key: string, unixtime: string) {
    HasNoCase(line, "key=" + key) && HasNoCase(line, "unixtime=" + unixtime)
  }

  function FirstConcerning(lines: seq<string>, i: nat, key: string, unixtime: string): (r: int)
    ensures r == -1 || i <= r < |lines|
    decreases |lines| - i
  {
    if i >= |lines| then -1
    else if Concerns(lines[i], key, unixtime) then i
    else FirstConcerning(lines, i + 1, key, unixtime)
  }

  // ---------------------------------------------------------------- the functions of lock.php

  function CreateFile(c: Config, f: FileState): FileState {
    if f.Present? then f else Present(if c.logline > 0 then c.header else "")
  }

  function PutLine(c: Config, f: FileState, line: string): (FileState, string) {
    var created := CreateFile(c, f);
    var lines := ReadLines(created.content);
    if |lines| == 0 then (created, "error")
    else
      var last := if |lines| >= c.logline then lines[|lines| - 1] else "";
      if last != "" && Repeats(last, line) then (created, "error:repeat")
      else (Present(WriteLines(Evict(lines + [line], c.logline, c.maxlogs))), "success")
  }

  function SaveRequest(c: Config, f: FileState, r: Request): (FileState, string) {
    if r.key == "" then (f, "error") else PutLine(c, f, Trim(RequestText(r)))
  }

  function CheckFile(c: Config, f: FileState): FileState {
    if f.Absent? then f
    else
      var lines := ReadLines(f.content);
      var kept := KeepRecords(lines, c.logline);
      if |kept| == |lines| then f else Present(WriteLines(kept))
  }

  function ReplaceLine(c: Config, f: FileState, index: nat, line: string): (FileState, string) {
    var created := CreateFile(c, f);
    var lines := ReadLines(created.content);
    if index >= |lines| then (created, "error") else (Present(WriteLines(lines[index := line])), "success")
  }

  function GetRequest(c: Config, f: FileState, key: string, dev: string): string {
    if key != dev then "access denied"
    else if f.Absent? then "empty"
    else
      var lines := ReadLines(f.content);
      var i := FirstUnanswered(lines, c.logline);
      if i < 0 then "empty" else Trim(lines[i])
  }

  function SetResponse(c: Config, f: FileState, key: string, dev: string, ukey: string, ukeyz: string,
                       unixtime: string, response: string, time: string): (FileState, string) {
    if key != dev then (f, "access denied")
    else if f.Absent? then (f, "error")
    else
      var lines := ReadLines(f.content);
      var i := FirstTaking(lines, c.logline, ukey, ukeyz, unixtime);
      if i < 0 then (f, "not found")
      else
        var (g, reply) := ReplaceLine(c, f, i, Trim(lines[i]) + ";response=" + response + ";time=" + time);
        (g, if reply == "success" then "success" else "error")
  }

  function GetResponse(c: Config, f: FileState, key: string, unixtime: string): string {
    if f.Absent? then "not found"
    else
      var lines := ReadLines(f.content);
      var i := FirstConcerning(lines, c.logline, key, unixtime);
      if i < 0 then "not found"
      else
        var response := GetVar(lines[i], NameText(Response));
        if response == "" then "processed" else response
  }

  /** A call whose key is not that of the device it names learns nothing and changes nothing. */
  lemma AccessDenied(c: Config, f: FileState, key: string, dev: string, ukey: string, ukeyz: string,
                     unixtime: string, response: string, time: string)
    requires key != dev
    ensures GetRequest(c, f, key, dev) == "access denied"
    ensures SetResponse(c, f, key, dev, ukey, ukeyz, unixtime, response, time) == (f, "access denied")
  {}

  /** Before anything has been posted there is nothing to receive, to answer or to read. */
  lemma NoFile(c: Config, key: string, ukey: string, ukeyz: string, unixtime: string, response: string, time: string)
    ensures GetRequest(c, Absent, key, key) == "empty"
    ensures SetResponse(c, Absent, key, key, ukey, ukeyz, unixtime, response, time) == (Absent, "error")
    ensures GetResponse(c, Absent, key, unixtime) == "not found" && CheckFile(c, Absent) == Absent
  {}

  // ---------------------------------------------------------------- the loops themselves

  class LogFile {
    const c: Config
    var file: FileState

    constructor (c: Config)
      ensures this.c == c && file == Absent
    {
      this.c := c;
      file := Absent;
    }

    method Create()
      modifies this
      ensures file == CreateFile(c, old(file))
    {
      if file.Absent? {
        var text := "";
        var i := 0;
        while i < c.logline
          invariant 0 <= i <= c.logline
          invariant text == if i > 0 then c.header else ""
        {
          text := text + (if i == 0 then c.header else "");
          i := i + 1;
        }
        file := Present(text);
      }
    }

    /** Truncate the file and write the lines back. */
    method Rewrite(lines: seq<string>)
      modifies this
      ensures file == Present(WriteLines(lines))
    {
      var text := "";
      var i := 0;
      while i < |lines|
        invariant 0 <= i <= |lines|
        invariant text == WriteLines(lines[..i])
      {
        WriteLinesAppend(lines[..i], lines[i]);
        assert lines[..i] + [lines[i]] == lines[..i + 1];
        text := text + (Trim(lines[i]) + "\n");
        i := i + 1;
      }
      assert lines[..i] == lines;
      file := Present(text);
    }

    method Replace(index: nat, line: string) returns (reply: string)
      modifies this
      ensures (file, reply) == ReplaceLine(c, old(file), index, line)
    {
      Create();
      var lines := ReadLines(file.content);
      if index >= |lines| {
        return "error";
      }
      Rewrite(lines[index := line]);
      reply := "success";
    }

    method Check()
      modifies this
      ensures file == CheckFile(c, old(file))
    {
      if file.Absent? {
        return;
      }
      var lines := ReadLines(file.content);
      ghost var all := lines;
      var del := false;
      var i := c.logline;
      while i < |lines|
        invariant c.logline <= i && |lines| <= |all| && del == (|lines| < |all|)
        invariant KeepRecords(all, c.logline) == KeepRecords(lines, i)
        decreases |lines| - i
      {
        if !HasNoCase(lines[i], "key=") || !HasNoCase(lines[i], "unixtime=") {
          lines := lines[..i] + lines[i + 1..];
          del := true;
        } else {
          i := i + 1;
        }
      }
      if del {
        Rewrite(lines);
      }
    }

    method Put(line: string) returns (reply: string)
      modifies this
      ensures (file, reply) == PutLine(c, old(file), line)
    {
      Create();
      var lines := ReadLines(file.content);
      if |lines| == 0 {
        return "error";
      }
      var last := if |lines| >= c.logline then lines[|lines| - 1] else "";
      if last != "" && Repeats(last, line) {
        return "error:repeat";
      }
      lines := lines + [line];
      ghost var all := lines;
      var i := c.logline;
      while i < |lines| && |lines| > c.maxlogs
        invariant 0 <= i
        invariant Evict(all, c.logline, c.maxlogs) == Evict(lines, i, c.maxlogs)
        decreases |lines|
      {
        lines := lines[..i] + lines[i + 1..];
        i := i + 1;
      }
      Rewrite(lines);
      reply := "success";
    }

    method Receive(key: string, dev: string) returns (reply: string)
      ensures reply == GetRequest(c, file, key, dev)
      ensures key != dev ==> reply == "access denied"
    {
      if key != dev {
        return "access denied";
      }
      if file.Absent? {
        return "empty";
      }
      var lines := ReadLines(file.content);
      var i := c.logline;
      while i < |lines|
        invariant 0 <= i && FirstUnanswered(lines, c.logline) == FirstUnanswered(lines, i)
      {
        if !HasNoCase(lines[i], "response=") {
          return Trim(lines[i]);
        }
        i := i + 1;
      }
      reply := "empty";
    }

    method Respond(key: string, dev: string, ukey: string, ukeyz: string, unixtime: string,
                   response: string, time: string) returns (reply: string)
      modifies this
      ensures (file, reply) == SetResponse(c, old(file), key, dev, ukey, ukeyz, unixtime, response, time)
      ensures key != dev ==> reply == "access denied" && file == old(file)
    {
      if key != dev {
        return "access denied";
      }
      if file.Absent? {
        return "error";
      }
      var lines := ReadLines(file.content);
      var i := c.logline;
      while i < |lines|
        invariant 0 <= i && file == old(file)
        invariant FirstTaking(lines, c.logline, ukey, ukeyz, unixtime) == FirstTaking(lines, i, ukey, ukeyz, unixtime)
      {
        if TakesResponse(lines[i], ukey, ukeyz, unixtime) {
          var r := Replace(i, Trim(lines[i]) + ";response=" + response + ";time=" + time);
          return if r == "success" then "success" else "error";
        }
        i := i + 1;
      }
      reply := "not found";
    }

    method Poll(key: string, unixtime: string) returns (reply: string)
      ensures reply == GetResponse(c, file, key, unixtime)
    {
      if file.Absent? {
        return "not found";
      }
      var lines := ReadLines(file.content);
      var i := c.logline;
      while i < |lines|
        invariant 0 <= i
        invariant FirstConcerning(lines, c.logline, key, unixtime) == FirstConcerning(lines, i, key, unixtime)
      {
        if Concerns(lines[i], key, unixtime) {
          var response := GetVar(lines[i], NameText(Response));
          return if response == "" then "processed" else response;
        }
        i := i + 1;
      }
      reply := "not found";
    }
  }

  lemma {:induction false} WriteLinesAppend(lines: seq<string>, line: string)
    ensures WriteLines(lines + [line]) == WriteLines(lines) + (Trim(line) + "\n")
  {
    if lines == [] {
      assert [line][1..] == [];
    } else {
      assert (lines + [line])[1..] == lines[1..] + [line];
      WriteLinesAppend(lines[1..], line);
    }
  }
}
