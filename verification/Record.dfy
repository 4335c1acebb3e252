/** The text of one request: written by lock.php (save_request_to_file), taken apart by the
    lock (get_argval and process in SWparser.cpp) and by lock.php itself (get_var). */
module Record {
  import opened Text

  /** What a guest asks for; `unixtime` and `reqtime` are stamped by the server. */
  datatype Request = Request(key: string, cmd: string, arg: string, ext: string,
                             unixtime: nat, reqtime: string)

  datatype Field = Field(name: string, value: string)

  // ---------------------------------------------------------------- writing

  function FieldText(f: Field): string {
    f.name + "=" + f.value
  }

  /** `name=value` pairs separated by semicolons. */
  function Join(fs: seq<Field>): string {
    if |fs| == 0 then ""
    else if |fs| == 1 then FieldText(fs[0])
    else FieldText(fs[0]) + ";" + Join(fs[1..])
  }

  /** An argument that is empty is not written. */
  function Optional(name: string, value: string): seq<Field> {
    if value != "" then [Field(name, value)] else []
  }

  function HeadFields(r: Request): seq<Field> {
    [Field("key", r.key), Field("cmd", r.cmd)] + Optional("arg", r.arg) + Optional("ext", r.ext)
    + [Field("unixtime", Decimal(r.unixtime))]
  }

  function RequestFields(r: Request): seq<Field> {
    HeadFields(r) + [Field("reqtime", r.reqtime)]
  }

  /** The request up to and including its unixtime. */
  function HeadText(r: Request): string {
    Join(HeadFields(r))
  }

  function RequestText(r: Request): string {
    Join(RequestFields(r))
  }

  // ---------------------------------------------------------------- reading on the lock

  /** From b to the first semicolon, else to the first ampersand, else to the end. */
  function ArgFrom(str: string, b: nat): string
    requires b <= |str|
  {
    var e := IndexOf(str, ";", b);
    if e != -1 then str[b..e]
    else
      var e2 := IndexOf(str, "&", b);
      if e2 != -1 then str[b..e2] else str[b..]
  }

  /** get_argval with its default start and separators. */
  function GetArgval(str: string, arg: string): string {
    var b := IndexOf(str, arg + "=", 0);
    if b != -1 then TrimSpace(ArgFrom(str, b + |arg| + 1))
    else if arg == "cmd" || arg == "c" then
      var amp := IndexOf(str, "&", 0);
      if amp != -1 then TrimSpace(ArgFrom(str, amp + 1)) else ""
    else ""
  }

  datatype Command = Command(cmd: string, key: string, argv: string, ext: string)

  /** The fields the lock takes from a remote command. */
  function RemoteFields(remote: string): Command {
    CommandOf(ReplaceAll(ReplaceAll(remote, "%26", "&"), "%3D", "="))
  }

  function CommandOf(remote: string): Command {
    var arg := GetArgval(remote, "arg");
    var v := if arg == "" then GetArgval(remote, "v") else arg;
    var val := if v == "" then GetArgval(remote, "val") else v;
    var argv := if val == "" then GetArgval(remote, "value") else val;
    Command(GetArgval(remote, "cmd"), GetArgval(remote, "key"), argv, GetArgval(remote, "ext"))
  }

  // ---------------------------------------------------------------- reading in lock.php

  /** get_var: from the last `name=` (in any case) to the last semicolon of the line. */
  function GetVar(line: string, name: string): string
    requires ';' !in name
  {
    var b := LastIndexOf(Lower(line), Lower(name + "="), 0);
    if b == -1 then ""
    else
      var e := LastIndexOf(line, ";", b);
      if e == -1 then ""
      else
        LastIndexOfLast(Lower(line), Lower(name + "="), 0);
        LastIndexOfLast(line, ";", b);
        NoSemicolonInside(line, name, b, e);
        line[b + |name| + 1..e]
  }

  lemma NoSemicolonInside(line: string, name: string, b: int, e: int)
    requires ';' !in name && At(Lower(line), Lower(name + "="), b) && b <= e && At(line, ";", e)
    ensures b + |name| + 1 <= e
  {
    CharAt(line, ";", e, 0);
    var low := Lower(name + "=");
    LowerKeeps(name + "=", ';');
    if e < b + |low| {
      CharAt(Lower(line), low, b, e - b);
      assert false;
    }
  }

  // ---------------------------------------------------------------- a record as a list of fields

  predicate Plain(s: string) {
    ';' !in s && '=' !in s
  }

  predicate PlainField(f: Field) {
    Plain(f.name) && Plain(f.value)
  }

  predicate PlainFields(fs: seq<Field>) {
    forall i | 0 <= i < |fs| :: PlainField(fs[i])
  }

  lemma {:induction false} JoinAppend(fs: seq<Field>, f: Field)
    requires |fs| > 0
    ensures Join(fs + [f]) == Join(fs) + ";" + FieldText(f)
  {
    assert (fs + [f])[1..] == fs[1..] + [f];
    if |fs| > 1 {
      JoinAppend(fs[1..], f);
    }
  }

  /** No field of the request can be confused with the structure of the line. */
  predicate PlainRequest(r: Request) {
    Plain(r.key) && Plain(r.cmd) && Plain(r.arg) && Plain(r.ext) && Plain(r.reqtime)
  }

  lemma HeadThenTime(r: Request)
    ensures RequestText(r) == HeadText(r) + ";" + FieldText(Field("reqtime", r.reqtime))
  {
    JoinAppend(HeadFields(r), Field("reqtime", r.reqtime));
  }

  lemma RequestFieldsPlain(r: Request)
    requires PlainRequest(r)
    ensures PlainFields(RequestFields(r)) && PlainFields(HeadFields(r))
  {
    DecimalPlain(r.unixtime);
    var a, b := Optional("arg", r.arg), Optional("ext", r.ext);
    assert PlainFields(a) && PlainFields(b);
    var first := [Field("key", r.key), Field("cmd", r.cmd)];
    assert PlainFields(first) && PlainFields(first + a) && PlainFields(first + a + b);
    assert PlainField(Field("unixtime", Decimal(r.unixtime)));
    assert PlainFields(HeadFields(r));
  }

  lemma DecimalPlain(n: nat)
    ensures Plain(Decimal(n))
  {
    forall c | c in Decimal(n) ensures Digit(c) {}
  }

  // ---------------------------------------------------------------- finding a field by name

  /** Field i is the only one whose name ends with the given text; i == |fs| when there is none. */
  predicate OnlyField(fs: seq<Field>, name: string, i: nat) {
    i <= |fs| && forall j | 0 <= j < |fs| :: EndsWith(fs[j].name, name) <==> j == i
  }

  /** Reading `name` from the line gives v, or finds nothing. */
  predicate Reads(line: string, name: string, found: bool, v: string) {
    var b := IndexOf(line, name + "=", 0);
    if b >= 0 then found && ArgFrom(line, b + |name| + 1) == v else !found
  }

  /** A text up to its first ampersand. */
  function UpToAmp(v: string): string {
    var e := CharFrom(v, '&', 0);
    if e < 0 then v else v[..e]
  }

  /** What is read of field i: its value, of the last field only up to an ampersand. */
  function ReadOf(fs: seq<Field>, i: nat): string {
    if i >= |fs| then "" else if i == |fs| - 1 then UpToAmp(fs[i].value) else fs[i].value
  }

  /** Reading a joined list gives the value of the field so named. */
  lemma {:induction false} JoinReads(fs: seq<Field>, line: string, name: string, i: nat)
    requires |fs| > 0 && PlainFields(fs) && Plain(name) && line == Join(fs) && OnlyField(fs, name, i)
    ensures Reads(line, name, i < |fs|, ReadOf(fs, i))
  {
    var f, rest := fs[0], fs[1..];
    assert PlainField(f) && (EndsWith(f.name, name) <==> i == 0);
    if |fs| == 1 {
      LastReads(f, name);
    } else if i == 0 {
      FirstReads(f, Join(rest), name);
    } else {
      forall j | 0 <= j < |rest| ensures EndsWith(rest[j].name, name) <==> j == i - 1 {
        assert rest[j] == fs[j + 1];
      }
      JoinReads(rest, Join(rest), name, i - 1);
      FirstFieldSkipped(f, Join(rest), name, i < |fs|, ReadOf(fs, i));
    }
  }

  lemma LastReads(f: Field, name: string)
    requires PlainField(f) && Plain(name)
    ensures if EndsWith(f.name, name) then Reads(FieldText(f), name, true, UpToAmp(f.value))
            else Reads(FieldText(f), name, false, "")
  {
    if EndsWith(f.name, name) {
      LastNamed(f, name, f.name[..|f.name| - |name|]);
    } else {
      ContainsField(f.name, f.value, name, "");
      assert name + "=" + "" == name + "=";
    }
  }

  lemma LastNamed(f: Field, name: string, p: string)
    requires PlainField(f) && Plain(name) && f.name == p + name
    ensures Reads(FieldText(f), name, true, UpToAmp(f.value))
  {
    var line := FieldText(f);
    assert line == p + (name + "=") + f.value;
    FirstField(p, name, f.value);
    assert line[|p| + |name| + 1..] == f.value;
    ArgFromLast(line, |p| + |name| + 1, f.value);
    ReadsIntro(line, name, |p|, |p| + |name| + 1, UpToAmp(f.value));
  }

  /** Without a semicolon after it a value ends at the first ampersand, or at the end. */
  lemma ArgFromLast(line: string, b: nat, v: string)
    requires b <= |line| && line[b..] == v && ';' !in v
    ensures ArgFrom(line, b) == UpToAmp(v)
  {
    CharFound(line, ';', b, v);
    CharFound(line, '&', b, v);
  }

  lemma CharFound(line: string, c: char, b: nat, v: string)
    requires b <= |line| && line[b..] == v
    ensures IndexOf(line, [c], b) == if c in v then b + CharFrom(v, c, 0) else -1
    ensures c in v <==> CharFrom(v, c, 0) >= 0
  {
    var e := CharFrom(v, c, 0);
    if e >= 0 {
      assert line[b + e] == v[e];
      forall j | b <= j < b + e ensures !At(line, [c], j) {
        assert v[j - b] == v[0..e][j - b] && line[j] == v[j - b];
        NotAt(line, [c], j, 0);
      }
      IndexIs(line, [c], b, b + e);
    } else {
      assert v[0..] == v;
      forall j: nat | b <= j ensures !At(line, [c], j) {
        assert j < |line| ==> line[j] == v[j - b];
        NotAt(line, [c], j, 0);
      }
      IndexOfFirst(line, [c], b);
    }
  }

  /** Without any `cmd=` the lock takes what follows the first ampersand for the command. */
  lemma CmdAfterAmp(line: string, p: string, v: string, rest: string)
    requires line == p + "&" + v + (";" + rest) && '&' !in p && ';' !in v && !Contains(line, "cmd=")
    ensures GetArgval(line, "cmd") == TrimSpace(v)
  {
    var b := |p| + 1;
    assert line == p + "&" + (v + (";" + rest)) && "cmd" + "=" == "cmd=";
    ValueEnd("", p, '&', v + (";" + rest));
    assert line == "" + p + ['&'] + (v + (";" + rest)) == (p + "&") + v + [';'] + rest;
    ValueEnd(p + "&", v, ';', rest);
  }

  lemma FirstReads(f: Field, rest: string, name: string)
    requires PlainField(f) && Plain(name) && EndsWith(f.name, name)
    ensures Reads(FieldText(f) + ";" + rest, name, true, f.value)
  {
    var p := f.name[..|f.name| - |name|];
    assert f.name == p + name;
    FirstReadsAfter(f, rest, name, p, FieldText(f) + ";" + rest);
  }

  lemma FirstReadsAfter(f: Field, rest: string, name: string, p: string, line: string)
    requires PlainField(f) && Plain(name) && f.name == p + name && line == FieldText(f) + ";" + rest
    ensures Reads(line, name, true, f.value)
  {
    FirstNameAt(f, rest, name, p);
    FirstValue(f, rest);
  }

  /** The field's text split around the sought name. */
  lemma FieldParts(f: Field, rest: string, p: string, name: string)
    requires f.name == p + name
    ensures FieldText(f) + ";" + rest == p + (name + "=") + (f.value + ";" + rest)
    ensures FieldText(f) + ";" + rest == (f.name + "=") + f.value + [';'] + rest
  {}

  lemma FirstNameAt(f: Field, rest: string, name: string, p: string)
    requires PlainField(f) && Plain(name) && f.name == p + name
    ensures IndexOf(FieldText(f) + ";" + rest, name + "=", 0) == |p|
  {
    FieldParts(f, rest, p, name);
    FirstField(p, name, f.value + ";" + rest);
  }

  lemma FirstValue(f: Field, rest: string)
    requires PlainField(f)
    ensures ArgFrom(FieldText(f) + ";" + rest, |f.name| + 1) == f.value
  {
    FieldParts(f, rest, "", f.name);
    ValueEnd(f.name + "=", f.value, ';', rest);
  }

  lemma NothingBefore(f: Field, rest: string, name: string, j: nat)
    requires PlainField(f) && Plain(name) && !EndsWith(f.name, name)
    requires j < |FieldText(f)| + 1
    ensures !At(FieldText(f) + ";" + rest, name + "=", j)
  {
    var line, t := FieldText(f) + ";" + rest, name + "=";
    if j + |name| == |f.name| {
      var k :| 0 <= k < |name| && f.name[j + k] != name[k];
      NotAt(line, t, j, k);
    } else if j + |name| < |FieldText(f)| + 1 {
      NotAt(line, t, j, |name|);
    } else {
      NotAt(line, t, j, |FieldText(f)| - j);
    }
  }

  lemma FirstFieldSkipped(f: Field, rest: string, name: string, found: bool, v: string)
    requires PlainField(f) && Plain(name) && !EndsWith(f.name, name)
    requires Reads(rest, name, found, v)
    ensures Reads(FieldText(f) + ";" + rest, name, found, v)
  {
    var line := FieldText(f) + ";" + rest;
    var n := |FieldText(f)| + 1;
    forall j | 0 <= j < n ensures !At(line, name + "=", j) {
      NothingBefore(f, rest, name, j);
    }
    ReadsTail(line, n, rest, name, found, v);
  }

  lemma ReadsTail(line: string, n: nat, rest: string, name: string, found: bool, v: string)
    requires Tail(line, n, rest) && forall j | 0 <= j < n :: !At(line, name + "=", j)
    requires Reads(rest, name, found, v)
    ensures Reads(line, name, found, v)
  {
    IndexOfSkip(line, n, rest, name + "=", 0);
    var b, c := IndexOf(line, name + "=", 0), IndexOf(rest, name + "=", 0);
    if c >= 0 {
      ReadsAt(line, n, rest, name, v, b, c, b + |name| + 1, c + |name| + 1);
    }
  }

  lemma ReadsAt(line: string, n: nat, rest: string, name: string, v: string, b: int, c: int, m: nat, k: nat)
    requires Tail(line, n, rest)
    requires b == IndexOf(line, name + "=", 0) && c == IndexOf(rest, name + "=", 0) && 0 <= c && b == n + c
    requires m == b + |name| + 1 && k == c + |name| + 1
    requires Reads(rest, name, true, v)
    ensures Reads(line, name, true, v)
  {
    ReadsElim(rest, name, c, k, v);
    ArgFromTail(line, n, rest, m, k);
    ReadsIntro(line, name, b, m, v);
  }

  lemma ReadsIntro(line: string, name: string, b: int, m: nat, v: string)
    requires b == IndexOf(line, name + "=", 0) >= 0
    requires m == b + |name| + 1 && ArgFrom(line, m) == v
    ensures Reads(line, name, true, v)
  {}

  lemma ReadsElim(line: string, name: string, b: int, m: nat, v: string)
    requires b == IndexOf(line, name + "=", 0) >= 0
    requires m == b + |name| + 1 && Reads(line, name, true, v)
    ensures ArgFrom(line, m) == v
  {}

  lemma ArgFromTail(line: string, n: nat, rest: string, b: nat, k: nat)
    requires Tail(line, n, rest) && k <= |rest| && b == n + k
    ensures ArgFrom(line, b) == ArgFrom(rest, k)
  {
    IndexOfTail(line, n, rest, ";", k, b);
    IndexOfTail(line, n, rest, "&", k, b);
    var e := if IndexOf(rest, ";", k) >= 0 then IndexOf(rest, ";", k) else IndexOf(rest, "&", k);
    var se := if IndexOf(line, ";", b) >= 0 then IndexOf(line, ";", b) else IndexOf(line, "&", b);
    SliceTail(line, n, rest, k, if e >= 0 then e else |rest|, b, if se >= 0 then se else |line|);
  }

  /** What the lock may be sent and still reads back unchanged. */
  predicate Transparent(r: Request) {
    PlainRequest(r)
    && '%' !in RequestText(r)
    && Solid(r.key) && Solid(r.cmd) && Solid(r.arg) && Solid(r.ext)
  }

  lemma TrimSolid(s: string)
    requires Solid(s)
    ensures Trim(s) == s && TrimSpace(s) == s
  {}

  lemma Untouched(s: string)
    requires '%' !in s
    ensures ReplaceAll(ReplaceAll(s, "%26", "&"), "%3D", "=") == s
  {
    ContainsFirstChar(s, "%26");
    ContainsFirstChar(s, "%3D");
  }

  /** The field names the two sides write and look for. */
  datatype Name = Key | Cmd | Arg | Ext | Unixtime | Reqtime | Response | V | Val | Value

  function NameText(n: Name): string {
    match n
    case Key => "key" case Cmd => "cmd" case Arg => "arg" case Ext => "ext"
    case Unixtime => "unixtime" case Reqtime => "reqtime" case Response => "response"
    case V => "v" case Val => "val" case Value => "value"
  }

  predicate Written(n: Name) {
    !n.Response?
  }

  lemma SuffixChar(s: string, t: string, k: nat)
    requires 1 <= k <= |s| && k <= |t| && s[|s| - k] != t[|t| - k]
    ensures !EndsWith(s, t)
  {
    if |t| <= |s| {
      assert s[|s| - |t|..][|t| - k] == s[|s| - k];
    }
  }

  /** Counted from the end, a place where two names differ. */
  function DifferAt(n: Name, m: Name): nat {
    if n == Unixtime && m == Reqtime then 7
    else if (n == Unixtime || n == Reqtime) && (m == Value || m == Response) then 2
    else 1
  }

  /** No written name ends with another name. */
  lemma NamesApart(n: Name, m: Name)
    requires Written(n)
    ensures EndsWith(NameText(n), NameText(m)) <==> n == m
    ensures Plain(NameText(m))
  {
    NamePlain(m);
    if n != m && |NameText(m)| <= |NameText(n)| {
      NamesDiffer(n, m);
      SuffixChar(NameText(n), NameText(m), DifferAt(n, m));
    }
  }

  lemma NamePlain(m: Name)
    ensures Plain(NameText(m))
  {}

  lemma NamesDiffer(n: Name, m: Name)
    requires Written(n) && n != m && |NameText(m)| <= |NameText(n)|
    ensures var k, s, t := DifferAt(n, m), NameText(n), NameText(m);
            1 <= k <= |s| && k <= |t| && s[|s| - k] != t[|t| - k]
  {}

  /** The fields of a record by name. */
  function Names(r: Request): seq<Name> {
    [Key, Cmd] + (if r.arg != "" then [Arg] else []) + (if r.ext != "" then [Ext] else []) + [Unixtime, Reqtime]
  }

  /** The value stored under a name, "" when the record has no such field. */
  function FieldValue(r: Request, name: Name): string {
    match name
    case Key => r.key
    case Cmd => r.cmd
    case Arg => r.arg
    case Ext => r.ext
    case Unixtime => Decimal(r.unixtime)
    case Reqtime => r.reqtime
    case _ => ""
  }

  lemma NamedFields(r: Request)
    ensures |Names(r)| == |RequestFields(r)|
    ensures forall j | 0 <= j < |Names(r)| :: Written(Names(r)[j])
                       && RequestFields(r)[j] == Field(NameText(Names(r)[j]), FieldValue(r, Names(r)[j]))
  {}

  /** Where in the record a name is found. */
  function FieldIndex(r: Request, name: Name): nat {
    var n := |Names(r)|;
    match name
    case Key => 0
    case Cmd => 1
    case Arg => if r.arg != "" then 2 else n
    case Ext => if r.ext != "" then n - 3 else n
    case Unixtime => n - 2
    case Reqtime => n - 1
    case _ => n
  }

  lemma NameIndex(r: Request, name: Name)
    ensures forall j | 0 <= j < |Names(r)| :: Names(r)[j] == name <==> j == FieldIndex(r, name)
    ensures FieldIndex(r, name) >= |Names(r)| ==> FieldValue(r, name) == "" && name != Cmd
  {}

  lemma FieldFound(r: Request, name: Name)
    ensures OnlyField(RequestFields(r), NameText(name), FieldIndex(r, name))
  {
    NamedFields(r);
    NameIndex(r, name);
    forall j | 0 <= j < |Names(r)|
      ensures EndsWith(RequestFields(r)[j].name, NameText(name)) <==> j == FieldIndex(r, name)
    {
      NamesApart(Names(r)[j], name);
    }
  }

  lemma ArgvalOfRequest(r: Request, name: Name)
    requires PlainRequest(r) && name != Reqtime
    ensures GetArgval(RequestText(r), NameText(name)) == TrimSpace(FieldValue(r, name))
  {
    RequestReads(r, name);
    NameIndex(r, name);
    NamesApart(Cmd, name);
    ReadsArgval(RequestText(r), NameText(name), FieldIndex(r, name) < |Names(r)|, FieldValue(r, name));
  }

  lemma RequestReads(r: Request, name: Name)
    requires PlainRequest(r) && name != Reqtime
    ensures Reads(RequestText(r), NameText(name), FieldIndex(r, name) < |Names(r)|, FieldValue(r, name))
  {
    RequestFieldsPlain(r);
    FieldFound(r, name);
    FieldValueAt(r, name);
    NamePlain(name);
    JoinReadsAt(RequestFields(r), RequestText(r), NameText(name), FieldIndex(r, name), FieldValue(r, name));
  }

  lemma JoinReadsAt(fs: seq<Field>, line: string, name: string, i: nat, v: string)
    requires |fs| > 0 && PlainFields(fs) && Plain(name) && line == Join(fs)
    requires OnlyField(fs, name, i) && i != |fs| - 1 && v == if i < |fs| then fs[i].value else ""
    ensures Reads(line, name, i < |fs|, v)
  {
    JoinReads(fs, line, name, i);
  }

  lemma FieldValueAt(r: Request, name: Name)
    requires name != Reqtime
    ensures var fs, i := RequestFields(r), FieldIndex(r, name);
            && |fs| == |Names(r)| > 0 && i != |fs| - 1 && FieldValue(r, name) == if i < |fs| then fs[i].value else ""
  {
    NamedFields(r);
    NameIndex(r, name);
  }

  lemma ReadsArgval(line: string, name: string, found: bool, v: string)
    requires Reads(line, name, found, v) && (name == "cmd" || name == "c" ==> found) && (!found ==> v == "")
    ensures GetArgval(line, name) == TrimSpace(v)
  {}

  /** Every name sought reads back as the value that was written under it. */
  lemma ArgvalExact(r: Request, line: string, name: Name, v: string)
    requires Transparent(r) && name != Reqtime && line == RequestText(r) && v == FieldValue(r, name)
    ensures GetArgval(line, NameText(name)) == v
  {
    ArgvalOfRequest(r, name);
    DecimalSolid(r.unixtime);
    TrimSolid(v);
  }

  lemma CommandFrom(line: string, c: Command)
    requires '%' !in line
    requires GetArgval(line, "cmd") == c.cmd && GetArgval(line, "key") == c.key && GetArgval(line, "ext") == c.ext
    requires GetArgval(line, "arg") == c.argv
    requires GetArgval(line, "v") == GetArgval(line, "val") == GetArgval(line, "value") == ""
    ensures RemoteFields(line) == c
  {
    Untouched(line);
  }

  /** The record written by the server is read on the lock as exactly the fields that went in. */
  lemma RecordRoundTrip(r: Request)
    requires Transparent(r)
    ensures RemoteFields(RequestText(r)) == Command(r.cmd, r.key, r.arg, r.ext)
    ensures GetArgval(RequestText(r), "unixtime") == Decimal(r.unixtime)
  {
    forall name: Name | name != Reqtime ensures GetArgval(RequestText(r), NameText(name)) == FieldValue(r, name) {
      ArgvalExact(r, RequestText(r), name, FieldValue(r, name));
    }
    assert NameText(Key) == "key" && NameText(Cmd) == "cmd" && NameText(Arg) == "arg" && NameText(Ext) == "ext";
    assert NameText(V) == "v" && NameText(Val) == "val" && NameText(Value) == "value";
    assert NameText(Unixtime) == "unixtime";
    CommandFrom(RequestText(r), Command(r.cmd, r.key, r.arg, r.ext));
  }

  lemma DecimalSolid(n: nat)
    ensures Solid(Decimal(n)) && TrimSpace(Decimal(n)) == Decimal(n)
  {
    var d := Decimal(n);
    assert Digit(d[0]) && Digit(d[|d| - 1]);
  }

  /** Two lists of plain fields that read the same are the same. */
  lemma {:induction false} JoinInjective(fs: seq<Field>, gs: seq<Field>)
    requires PlainFields(fs) && PlainFields(gs) && |fs| > 0 && |gs| > 0
    requires Join(fs) == Join(gs)
    ensures fs == gs
  {
    var f, g := fs[0], gs[0];
    assert PlainField(f) && PlainField(g);
    var s := Join(fs);
    assert s[|f.name|] == '=' && s[|g.name|] == '=';
    assert |f.name| == |g.name|;
    assert f.name == s[..|f.name|] == g.name;
    var b := |f.name| + 1;
    if |fs| > 1 {
      assert s[b + |f.value|] == ';';
    }
    if |gs| > 1 {
      assert s[b + |g.value|] == ';';
    }
    assert |f.value| == |g.value|;
    assert f.value == s[b..b + |f.value|] == g.value;
    if |fs| > 1 {
      assert Join(fs[1..]) == s[b + |f.value| + 1..] == Join(gs[1..]);
      JoinInjective(fs[1..], gs[1..]);
      assert fs == [f] + fs[1..] && gs == [g] + gs[1..];
    }
  }

  lemma HeadFieldsInjective(q: Request, r: Request)
    requires HeadFields(q) == HeadFields(r)
    ensures q.(reqtime := "") == r.(reqtime := "")
  {
    var fs, gs := HeadFields(q), HeadFields(r);
    assert "arg"[0] != "ext"[0] && "arg"[0] != "unixtime"[0] && "ext"[0] != "unixtime"[0];
    assert fs[0].value == gs[0].value && fs[1].value == gs[1].value;
    assert fs[2] == gs[2] && fs[|fs| - 2] == gs[|gs| - 2];
    assert fs[|fs| - 1].value == gs[|gs| - 1].value;
    DecimalValue(q.unixtime);
    DecimalValue(r.unixtime);
  }

  /** Two plain requests read the same up to the unixtime exactly when all their fields agree. */
  lemma HeadInjective(q: Request, r: Request)
    requires PlainRequest(q) && PlainRequest(r)
    ensures HeadText(q) == HeadText(r) <==> q.(reqtime := "") == r.(reqtime := "")
  {
    if HeadText(q) == HeadText(r) {
      RequestFieldsPlain(q); RequestFieldsPlain(r);
      JoinInjective(HeadFields(q), HeadFields(r));
      HeadFieldsInjective(q, r);
    }
  }

  // ---------------------------------------------------------------- the names an argument may have

  /** A line of named values. */
  function NamedList(names: seq<Name>, vals: seq<string>): (fs: seq<Field>)
    requires |names| == |vals|
    ensures |fs| == |names| && forall i | 0 <= i < |fs| :: fs[i] == Field(NameText(names[i]), vals[i])
  {
    seq(|names|, i requires 0 <= i < |names| => Field(NameText(names[i]), vals[i]))
  }

  /** Where a name stands, or the length of the list. */
  function PlaceOf(names: seq<Name>, name: Name): (i: nat)
    ensures i <= |names| && (i < |names| ==> names[i] == name) && (i < |names| <==> name in names)
  {
    if names == [] then 0 else if names[0] == name then 0 else 1 + PlaceOf(names[1..], name)
  }

  /** What is written under a name, "" when nothing is. */
  function ValueUnder(names: seq<Name>, vals: seq<string>, name: Name): string
    requires |names| == |vals|
  {
    if name in names then vals[PlaceOf(names, name)] else ""
  }

  predicate Sendable(names: seq<Name>, vals: seq<string>) {
    && |names| == |vals| && (forall i | 0 <= i < |names| :: Written(names[i]) && Plain(vals[i]) && Solid(vals[i]))
    && (forall i, j | 0 <= i < j < |names| :: names[i] != names[j])
  }

  lemma NamedOnly(names: seq<Name>, vals: seq<string>, name: Name)
    requires Sendable(names, vals)
    ensures OnlyField(NamedList(names, vals), NameText(name), PlaceOf(names, name))
    ensures PlainFields(NamedList(names, vals)) && Plain(NameText(name))
  {
    var fs := NamedList(names, vals);
    NamePlain(name);
    forall j | 0 <= j < |fs|
      ensures PlainField(fs[j]) && (EndsWith(fs[j].name, NameText(name)) <==> j == PlaceOf(names, name))
    {
      NamedAt(names[j], vals[j], name);
    }
  }

  lemma NamedAt(n: Name, v: string, name: Name)
    requires Written(n) && Plain(v)
    ensures PlainField(Field(NameText(n), v)) && (EndsWith(NameText(n), NameText(name)) <==> n == name)
  {
    NamePlain(n);
    NamesApart(n, name);
  }

  lemma NamedReads(names: seq<Name>, vals: seq<string>, line: string, name: Name)
    requires Sendable(names, vals) && names != [] && names[|names| - 1] != name && (name == Cmd ==> Cmd in names)
    requires line == Join(NamedList(names, vals))
    ensures GetArgval(line, NameText(name)) == ValueUnder(names, vals, name)
  {
    var v := ValueUnder(names, vals, name);
    NamedFound(names, vals, line, name);
    OnlyCmd(name);
    ReadsArgval(line, NameText(name), name in names, v);
    TrimSolid(v);
  }

  lemma NamedFound(names: seq<Name>, vals: seq<string>, line: string, name: Name)
    requires Sendable(names, vals) && names != [] && names[|names| - 1] != name
    requires line == Join(NamedList(names, vals))
    ensures Reads(line, NameText(name), name in names, ValueUnder(names, vals, name))
  {
    NamedOnly(names, vals, name);
    JoinReadsAt(NamedList(names, vals), line, NameText(name), PlaceOf(names, name), ValueUnder(names, vals, name));
  }

  lemma OnlyCmd(name: Name)
    ensures NameText(name) == "cmd" || NameText(name) == "c" ==> name == Cmd
  {}

  function FirstFilled(a: string, b: string, c: string, d: string): string {
    if a != "" then a else if b != "" then b else if c != "" then c else d
  }

  /** The lock takes its argument from `arg`, and when that is empty or missing from `v`, then from `val`,
      then from `value`, wherever they stand in the line. */
  lemma ArgumentFallback(names: seq<Name>, vals: seq<string>, line: string)
    requires Sendable(names, vals) && Cmd in names && line == Join(NamedList(names, vals)) && '%' !in line
    requires names[|names| - 1].Unixtime? || names[|names| - 1].Reqtime?
    ensures RemoteFields(line) ==
            Command(ValueUnder(names, vals, Cmd), ValueUnder(names, vals, Key),
                    FirstFilled(ValueUnder(names, vals, Arg), ValueUnder(names, vals, V),
                                ValueUnder(names, vals, Val), ValueUnder(names, vals, Value)),
                    ValueUnder(names, vals, Ext))
  {
    forall name: Name | !name.Unixtime? && !name.Reqtime?
      ensures GetArgval(line, NameText(name)) == ValueUnder(names, vals, name)
    {
      NamedReads(names, vals, line, name);
    }
    assert NameText(Key) == "key" && NameText(Cmd) == "cmd" && NameText(Arg) == "arg" && NameText(Ext) == "ext";
    assert NameText(V) == "v" && NameText(Val) == "val" && NameText(Value) == "value";
    Untouched(line);
  }

  // ---------------------------------------------------------------- a command with an escaped equals sign

  /** Only the first occurrence is there to be replaced. */
  lemma ReplaceOnce(p: string, t: string, q: string, u: string)
    requires t != "" && t[0] !in p && t[0] !in q
    ensures ReplaceAll(p + t + q, t, u) == p + u + q
  {
    var s := p + t + q;
    forall j | 0 <= j < |p| ensures !At(s, t, j) {
      NotAt(s, t, j, 0);
    }
    assert s[|p|..|p| + |t|] == t;
    IndexIs(s, t, 0, |p|);
    assert s[..|p|] == p && s[|p| + |t|..] == q;
    ContainsFirstChar(q, t);
  }

  // ---------------------------------------------------------------- escapes

  /** An ampersand and an equals sign as they are sent; the first of these alone. */
  function Escaped(s: string): string {
    if s == "" then ""
    else (if s[0] == '&' then "%26" else if s[0] == '=' then "%3D" else [s[0]]) + Escaped(s[1..])
  }

  function EqualsEscaped(s: string): string {
    if s == "" then "" else (if s[0] == '=' then "%3D" else [s[0]]) + EqualsEscaped(s[1..])
  }

  lemma ReplaceHere(t: string, q: string, u: string)
    requires t != ""
    ensures ReplaceAll(t + q, t, u) == u + ReplaceAll(q, t, u)
  {
    var s := t + q;
    assert s[0..0 + |t|] == t;
    IndexIs(s, t, 0, 0);
    assert s[0 + |t|..] == q;
    ReplaceThen(s, t, u, 0, q);
  }

  lemma {:induction false} ReplaceLater(c: char, s: string, t: string, u: string)
    requires t != "" && (t[0] != c || (|t| > 1 && s != "" && t[1] != s[0]))
    ensures ReplaceAll([c] + s, t, u) == [c] + ReplaceAll(s, t, u)
  {
    var i := IndexOf(s, t, 0);
    LaterIndex(c, s, t);
    if i >= 0 {
      ReplaceLaterAt(c, s, [c] + s, t, u, i);
    } else {
      ReplaceNot([c] + s, t, u);
      ReplaceNot(s, t, u);
    }
  }

  lemma {:induction false} ReplaceLaterAt(c: char, s: string, cs: string, t: string, u: string, i: nat)
    requires t != "" && cs == [c] + s && IndexOf(s, t, 0) == i && IndexOf(cs, t, 0) == i + 1
    ensures ReplaceAll(cs, t, u) == [c] + ReplaceAll(s, t, u)
  {
    var tail := s[i + |t|..];
    assert cs[i + 1 + |t|..] == tail;
    ReplaceThen(cs, t, u, i + 1, tail);
    ReplaceThen(s, t, u, i, tail);
    LaterParts(c, s, cs, i, u, ReplaceAll(tail, t, u), ReplaceAll(cs, t, u), ReplaceAll(s, t, u));
  }

  lemma {:induction false} ReplaceThen(s: string, t: string, u: string, i: nat, tail: string)
    requires t != "" && i == IndexOf(s, t, 0) && tail == s[i + |t|..]
    ensures ReplaceAll(s, t, u) == s[..i] + u + ReplaceAll(tail, t, u)
  {}

  lemma LaterIndex(c: char, s: string, t: string)
    requires t != "" && (t[0] != c || (|t| > 1 && s != "" && t[1] != s[0]))
    ensures IndexOf([c] + s, t, 0) == if IndexOf(s, t, 0) >= 0 then IndexOf(s, t, 0) + 1 else -1
  {
    NotAt([c] + s, t, 0, if t[0] != c then 0 else 1);
    assert Tail([c] + s, 1, s);
    IndexOfSkip([c] + s, 1, s, t, 0);
  }

  lemma {:induction false} ReplaceNot(s: string, t: string, u: string)
    requires t != "" && IndexOf(s, t, 0) < 0
    ensures ReplaceAll(s, t, u) == s
  {}

  lemma LaterParts(c: char, s: string, cs: string, i: nat, u: string, rest: string, a: string, b: string)
    requires cs == [c] + s && i <= |s| && a == cs[..i + 1] + u + rest && b == s[..i] + u + rest
    ensures a == [c] + b
  {
    assert cs[..i + 1] == [c] + s[..i];
  }

  lemma {:induction false} OtherKept(rest: string)
    ensures ReplaceAll("%3D" + rest, "%26", "&") == "%3D" + ReplaceAll(rest, "%26", "&")
  {
    var r := ReplaceAll(rest, "%26", "&");
    ReplaceLater('D', rest, "%26", "&");
    ReplaceLater('3', ['D'] + rest, "%26", "&");
    ReplaceLater('%', ['3'] + (['D'] + rest), "%26", "&");
    ThreeMore(rest);
    ThreeMore(r);
  }

  lemma ThreeMore(s: string)
    ensures "%3D" + s == ['%'] + (['3'] + (['D'] + s))
  {}

  lemma {:induction false} AmpersandsBack(s: string)
    requires '%' !in s
    ensures ReplaceAll(Escaped(s), "%26", "&") == EqualsEscaped(s)
  {
    if s != "" {
      var rest := Escaped(s[1..]);
      AmpersandsBack(s[1..]);
      if s[0] == '&' {
        ReplaceHere("%26", rest, "&");
      } else if s[0] == '=' {
        OtherKept(rest);
      } else {
        ReplaceLater(s[0], rest, "%26", "&");
      }
    }
  }

  lemma {:induction false} EqualsBack(s: string)
    requires '%' !in s
    ensures ReplaceAll(EqualsEscaped(s), "%3D", "=") == s
  {
    if s != "" {
      var rest := EqualsEscaped(s[1..]);
      EqualsBack(s[1..]);
      assert s == [s[0]] + s[1..];
      if s[0] == '=' {
        ReplaceHere("%3D", rest, "=");
      } else {
        ReplaceLater(s[0], rest, "%3D", "=");
      }
    }
  }

  /** The lock undoes the escapes of any text without a percent sign. */
  lemma EscapesUndone(s: string)
    requires '%' !in s
    ensures RemoteFields(Escaped(s)) == CommandOf(s)
  {
    AmpersandsBack(s);
    EqualsBack(s);
  }

  lemma OtherEscape(p: string, q: string)
    requires '%' !in p && '%' !in q
    ensures !Contains(p + "%3D" + q, "%26")
  {
    var s := p + "%3D" + q;
    ContainsAt(s, "%26");
    forall j: nat ensures !At(s, "%26", j) {
      NotAt(s, "%26", j, if j == |p| then 1 else 0);
    }
  }

  lemma CmdParts(r: Request)
    ensures RequestText(r) == "key=" + r.key + ";cmd=" + r.cmd + ";" + Join(RequestFields(r)[2..])
  {
    var fs := RequestFields(r);
    assert fs[1..][1..] == fs[2..];
    assert Join(fs) == FieldText(fs[0]) + ";" + Join(fs[1..]);
    assert Join(fs[1..]) == FieldText(fs[1]) + ";" + Join(fs[2..]);
  }

  lemma CmdReads(key: string, cmd: string, rest: string)
    requires Plain(key) && ';' !in cmd && Solid(cmd)
    ensures GetArgval("key=" + key + ";cmd=" + cmd + ";" + rest, "cmd") == cmd
  {
    CmdFound(key, cmd + ";" + rest);
    assert "key=" + key + ";" + "cmd=" + (cmd + ";" + rest) == "key=" + key + ";cmd=" + cmd + ";" + rest;
    ValueEnd("key=" + key + ";cmd=", cmd, ';', rest);
    TrimSolid(cmd);
  }

  lemma CmdFound(key: string, rest: string)
    requires Plain(key)
    ensures IndexOf("key=" + key + ";" + "cmd=" + rest, "cmd" + "=", 0) == |key| + 5
  {
    var s, t, n := "key=" + key + ";" + "cmd=" + rest, "cmd" + "=", |key| + 5;
    forall j | 0 <= j < n ensures !At(s, t, j) {
      NotAt(s, t, j, if j == 0 then 0 else if j + 3 < n then 3 else n - 1 - j);
    }
    assert s[n..n + |t|] == t;
    IndexIs(s, t, 0, n);
  }

  /** A command `key%3Dw` is taken by the lock for `key=w`. */
  lemma EscapedCommand(r: Request, w: string)
    requires PlainRequest(r) && r.cmd == "key%3D" + w && Solid(w) && '%' !in RequestText(r.(cmd := w))
    ensures RemoteFields(RequestText(r)).cmd == "key=" + w
  {
    var rest := Join(RequestFields(r)[2..]);
    CmdParts(r);
    CmdParts(r.(cmd := w));
    assert RequestFields(r)[2..] == RequestFields(r.(cmd := w))[2..];
    RequestFieldsPlain(r);
    assert PlainField(RequestFields(r)[0]) && PlainField(RequestFields(r)[1]);
    EscapedIs(r.key, w, rest);
    CmdReads(r.key, "key=" + w, rest);
  }

  lemma EscapedIs(key: string, w: string, rest: string)
    requires '%' !in "key=" + key + ";cmd=" + w + ";" + rest
    ensures ReplaceAll(ReplaceAll("key=" + key + ";cmd=" + ("key%3D" + w) + ";" + rest, "%26", "&"), "%3D", "=")
            == "key=" + key + ";cmd=" + ("key=" + w) + ";" + rest
  {
    var p, q := "key=" + key + ";cmd=key", w + ";" + rest;
    assert "key=" + key + ";cmd=" + w + ";" + rest == "key=" + key + ";cmd=" + q;
    assert "key=" + key + ";cmd=" + ("key%3D" + w) + ";" + rest == p + "%3D" + q;
    assert "key=" + key + ";cmd=" + ("key=" + w) + ";" + rest == p + "=" + q;
    OtherEscape(p, q);
    ReplaceOnce(p, "%3D", q, "=");
  }
}
