/** One line of the transponder's log: a request, followed by its response once there is one.
    What the searches of lock.php (strripos, get_var) find in such a line. */
module LogLine {
  import opened Text
  import opened Record

  datatype Answer = Unanswered | Answered(response: string, time: string)

  function AnswerTail(response: string, time: string): string {
    FieldText(Field("response", response)) + ";" + FieldText(Field("time", time))
  }

  function LineText(r: Request, a: Answer): string {
    match a
    case Unanswered => RequestText(r)
    case Answered(response, time) => RequestText(r) + ";" + AnswerTail(response, time)
  }

  /** The text `name=` occurs, in any case. */
  predicate Mentions(s: string, name: string) {
    Contains(Lower(s), name + "=")
  }

  /** A response whose end can be found again in its line. */
  predicate Readable(s: string) {
    !Mentions(s, NameText(Response))
  }

  predicate PlainAnswer(a: Answer) {
    a.Answered? ==> Readable(a.response) && Plain(a.time)
  }

  /** The response itself contains `name=w`, in any case. */
  predicate Says(a: Answer, name: Name, w: string) {
    a.Answered? && Contains(Lower(a.response), NameText(name) + "=" + Lower(w))
  }

  // ---------------------------------------------------------------- searching a joined list

  lemma {:induction false} JoinHas(fs: seq<Field>, m: string, w: string)
    requires PlainFields(fs) && |fs| > 0 && Plain(m) && ';' !in w
    ensures Contains(Join(fs), m + "=" + w) <==>
              exists i :: 0 <= i < |fs| && EndsWith(fs[i].name, m) && w <= fs[i].value
  {
    var f, rest := fs[0], fs[1..];
    assert PlainField(f);
    ContainsField(f.name, f.value, m, w);
    if |fs| > 1 {
      JoinHas(rest, m, w);
      ContainsSplit(FieldText(f), ';', Join(rest), m + "=" + w);
      assert forall i | 0 <= i < |rest| :: rest[i] == fs[i + 1];
      assert forall i | 0 < i < |fs| :: fs[i] == rest[i - 1];
    }
  }

  function LowerFields(fs: seq<Field>): seq<Field> {
    seq(|fs|, i requires 0 <= i < |fs| => Field(Lower(fs[i].name), Lower(fs[i].value)))
  }

  lemma {:induction false} LowerJoin(fs: seq<Field>)
    ensures Lower(Join(fs)) == Join(LowerFields(fs))
  {
    if |fs| > 0 {
      var f := fs[0];
      LowerConcat(f.name + "=", f.value);
      LowerConcat(f.name, "=");
      if |fs| > 1 {
        LowerJoin(fs[1..]);
        assert LowerFields(fs)[1..] == LowerFields(fs[1..]);
        LowerConcat(FieldText(f) + ";", Join(fs[1..]));
        LowerConcat(FieldText(f), ";");
      }
    }
  }

  lemma LowerPlain(s: string)
    requires Plain(s)
    ensures Plain(Lower(s))
  {
    LowerKeeps(s, ';');
    LowerKeeps(s, '=');
  }

  lemma LowerFieldsPlain(fs: seq<Field>)
    requires PlainFields(fs)
    ensures PlainFields(LowerFields(fs))
  {
    forall i | 0 <= i < |fs| ensures PlainField(LowerFields(fs)[i]) {
      assert PlainField(fs[i]);
      LowerPlain(fs[i].name);
      LowerPlain(fs[i].value);
    }
  }

  lemma LowerName(n: Name)
    ensures Lower(NameText(n)) == NameText(n)
    ensures Lower(NameText(n) + "=") == NameText(n) + "="
  {
    LowerConcat(NameText(n), "=");
  }

  /** A request's text contains `name=w`, in any case, exactly when w starts the value of that name. */
  lemma RequestHas(r: Request, name: Name, w: string)
    requires PlainRequest(r) && ';' !in w && name != Cmd
    ensures Contains(Lower(RequestText(r)), NameText(name) + "=" + w)
            <==> name in Names(r) && w <= Lower(FieldValue(r, name))
  {
    var fs := RequestFields(r);
    RequestFieldsPlain(r);
    LowerJoin(fs);
    LowerFieldsPlain(fs);
    NamePlain(name);
    JoinHas(LowerFields(fs), NameText(name), w);
    forall i | 0 <= i < |fs|
      ensures |Names(r)| == |fs| && (EndsWith(LowerFields(fs)[i].name, NameText(name)) <==> Names(r)[i] == name)
      ensures Names(r)[i] == name ==> LowerFields(fs)[i].value == Lower(FieldValue(r, name))
    {
      FieldNamed(r, i, name);
    }
    NamedField(LowerFields(fs), Names(r), name, w, Lower(FieldValue(r, name)));
  }

  lemma FieldNamed(r: Request, i: nat, name: Name)
    requires i < |RequestFields(r)|
    ensures |Names(r)| == |RequestFields(r)|
    ensures EndsWith(Lower(RequestFields(r)[i].name), NameText(name)) <==> Names(r)[i] == name
    ensures Names(r)[i] == name ==> RequestFields(r)[i].value == FieldValue(r, name)
  {
    NamedFields(r);
    LowerName(Names(r)[i]);
    NamesApart(Names(r)[i], name);
  }

  /** Some field is so named and starts with w exactly when the name occurs and its value starts with w. */
  lemma NamedField(fs: seq<Field>, names: seq<Name>, name: Name, w: string, v: string)
    requires |names| == |fs|
    requires forall i | 0 <= i < |fs| :: EndsWith(fs[i].name, NameText(name)) <==> names[i] == name
    requires forall i | 0 <= i < |fs| :: names[i] == name ==> fs[i].value == v
    ensures (exists i :: 0 <= i < |fs| && EndsWith(fs[i].name, NameText(name)) && w <= fs[i].value)
            <==> name in names && w <= v
  {
    if name in names && w <= v {
      var i :| 0 <= i < |names| && names[i] == name;
      assert EndsWith(fs[i].name, NameText(name)) && w <= fs[i].value;
    }
  }

  // ---------------------------------------------------------------- searching a line of the log

  predicate RoutingName(name: Name) {
    name.Key? || name.Unixtime?
  }

  lemma ResponseHas(response: string, name: Name, w: string)
    requires RoutingName(name)
    ensures Contains("response=" + Lower(response), NameText(name) + "=" + w)
            <==> Contains(Lower(response), NameText(name) + "=" + w)
  {
    var m := NameText(name);
    assert (m + "=" + w)[0] == m[0] && m[0] !in "response=";
    ContainsSkip("response=", Lower(response), m + "=" + w);
  }

  lemma TimeLacks(time: string, name: Name, w: string)
    requires Plain(time) && (RoutingName(name) || name.Response?)
    ensures !Contains("time=" + time, NameText(name) + "=" + w)
  {
    NamesApart(Key, name);
    ContainsField("time", time, NameText(name), w);
    assert "time" + "=" + time == "time=" + time;
  }

  lemma LowerTail(response: string, time: string)
    ensures Lower(AnswerTail(response, time)) == "response=" + Lower(response) + [';'] + ("time=" + Lower(time))
  {}

  /** What follows the request in an answered line contains such a text only inside the response. */
  lemma TailHas(response: string, time: string, name: Name, w: string)
    requires Plain(time) && RoutingName(name) && ';' !in w
    ensures Contains(Lower(AnswerTail(response, time)), NameText(name) + "=" + w)
            <==> Contains(Lower(response), NameText(name) + "=" + w)
  {
    ResponseHas(response, name, w);
    LowerPlain(time);
    TimeLacks(Lower(time), name, w);
    LowerTail(response, time);
    NamesApart(Key, name);
    ContainsSplit("response=" + Lower(response), ';', "time=" + Lower(time), NameText(name) + "=" + w);
  }

  lemma LowerLine(r: Request, response: string, time: string)
    ensures Lower(LineText(r, Answered(response, time)))
            == Lower(RequestText(r)) + [';'] + Lower(AnswerTail(response, time))
  {}

  /** A line contains `key=w` or `unixtime=w`, in any case, exactly when w starts that value of its request
      or the response itself contains the text. */
  lemma LineHas(r: Request, a: Answer, name: Name, w: string)
    requires PlainRequest(r) && PlainAnswer(a) && RoutingName(name) && ';' !in w
    ensures Contains(Lower(LineText(r, a)), NameText(name) + "=" + w)
            <==> w <= Lower(FieldValue(r, name))
                 || (a.Answered? && Contains(Lower(a.response), NameText(name) + "=" + w))
  {
    RequestHas(r, name, w);
    assert name in Names(r) by {
      NameIndex(r, name);
      assert Names(r)[FieldIndex(r, name)] == name;
    }
    if a.Answered? {
      TailHas(a.response, a.time, name, w);
      LowerLine(r, a.response, a.time);
      NamesApart(Key, name);
      ContainsSplit(Lower(RequestText(r)), ';', Lower(AnswerTail(a.response, a.time)), NameText(name) + "=" + w);
    }
  }

  lemma TailMentions(response: string, time: string)
    ensures Contains(Lower(AnswerTail(response, time)), NameText(Response) + "=")
  {
    var tail, t := Lower(AnswerTail(response, time)), NameText(Response) + "=";
    LowerTail(response, time);
    assert tail[0..0 + |t|] == t;
    assert At(tail, t, 0);
    ContainsAt(tail, t);
  }

  /** A line contains `response=` exactly when it is answered. */
  lemma LineAnswered(r: Request, a: Answer)
    requires PlainRequest(r)
    ensures Mentions(LineText(r, a), NameText(Response)) <==> a.Answered?
  {
    RequestHas(r, Response, "");
    NameIndex(r, Response);
    assert NameText(Response) + "=" + "" == NameText(Response) + "=";
    if a.Answered? {
      TailMentions(a.response, a.time);
      LowerLine(r, a.response, a.time);
      NamesApart(Key, Response);
      ContainsSplit(Lower(RequestText(r)), ';', Lower(AnswerTail(a.response, a.time)), NameText(Response) + "=");
    }
  }

  // ---------------------------------------------------------------- reading a line of the log

  lemma LastSemicolon(p: string, rest: string, b: nat)
    requires ';' !in rest && b <= |p|
    ensures LastIndexOf(p + ";" + rest, ";", b) == |p|
  {
    var s := p + ";" + rest;
    forall j | |p| < j ensures !At(s, ";", j) {
      NotAt(s, ";", j, 0);
    }
    assert s[|p|..|p| + 1] == ";";
    LastIndexIs(s, ";", b, |p|);
  }

  /** A name as it is written in a line. */
  predicate WrittenName(m: string) {
    Plain(m) && Lower(m) == m
  }

  lemma NameWritten(name: Name)
    ensures WrittenName(NameText(name))
  {
    LowerName(name);
    NamesApart(Key, name);
  }

  lemma LowerEquals(m: string)
    requires WrittenName(m)
    ensures Lower(m + "=") == m + "="
  {
    LowerConcat(m, "=");
  }

  lemma GetVarBetween(line: string, name: string, b: nat, e: nat)
    requires ';' !in name
    requires LastIndexOf(Lower(line), Lower(name + "="), 0) == b && LastIndexOf(line, ";", b) == e
    ensures b + |name| + 1 <= e <= |line| && GetVar(line, name) == line[b + |name| + 1..e]
  {
    LastIndexOfLast(Lower(line), Lower(name + "="), 0);
    LastIndexOfLast(line, ";", b);
    NoSemicolonInside(line, name, b, e);
  }

  lemma NameLast(p: string, k: string, m: string, rest: string)
    requires WrittenName(m) && Lower(k) == m + "=" && !Mentions(rest, m)
    ensures LastIndexOf(Lower(p + k + rest), Lower(m + "="), 0) == |p|
  {
    LowerEquals(m);
    LowerConcat(p + k, rest);
    LowerConcat(p, k);
    LastField(Lower(p), m, Lower(rest));
  }

  lemma MiddleSlice(p: string, v: string, rest: string)
    ensures (p + v + ";" + rest)[|p|..|p + v|] == v
    ensures p + v + ";" + rest == p + (v + ";" + rest)
  {}

  lemma GetVarParts(pn: string, m: string, v: string, rest: string, b: nat)
    requires ';' !in rest && ';' !in m && |pn| == b + |m| + 1
    requires LastIndexOf(Lower(pn + (v + ";" + rest)), Lower(m + "="), 0) == b
    ensures GetVar(pn + v + ";" + rest, m) == v
  {
    MiddleSlice(pn, v, rest);
    LastSemicolon(pn + v, rest, b);
    GetVarBetween(pn + v + ";" + rest, m, b, |pn + v|);
  }

  /** get_var returns what stands between the last `name=`, in any case, and the last semicolon. */
  lemma GetVarAt(p: string, k: string, m: string, v: string, rest: string)
    requires WrittenName(m) && Lower(k) == m + "=" && ';' !in rest && !Mentions(v + ";" + rest, m)
    ensures GetVar(p + k + v + ";" + rest, m) == v
  {
    NameLast(p, k, m, v + ";" + rest);
    GetVarParts(p + k, m, v, rest, |p|);
  }

  lemma LowerSplit(a: string, b: string)
    ensures Lower(a + ";" + b) == Lower(a) + [';'] + Lower(b)
  {}

  lemma MentionsSplit(a: string, b: string, m: string)
    requires Plain(m)
    ensures Mentions(a + ";" + b, m) <==> Mentions(a, m) || Mentions(b, m)
  {
    LowerSplit(a, b);
    ContainsSplit(Lower(a), ';', Lower(b), m + "=");
  }

  lemma LowerTime(time: string)
    ensures Lower("time=" + time) == "time=" + Lower(time)
  {}

  lemma TimeMentions(time: string, name: Name)
    requires Plain(time) && (RoutingName(name) || name.Response?)
    ensures !Mentions("time=" + time, NameText(name))
  {
    LowerPlain(time);
    LowerTime(time);
    TimeLacks(Lower(time), name, "");
    assert NameText(name) + "=" + "" == NameText(name) + "=";
  }

  lemma AnsweredText(r: Request, response: string, time: string)
    ensures LineText(r, Answered(response, time))
            == (RequestText(r) + ";") + (NameText(Response) + "=") + response + ";" + ("time=" + time)
  {}

  /** The response written into a line is read back unchanged, whatever semicolons it holds. */
  lemma ResponseRoundTrip(r: Request, response: string, time: string)
    requires Readable(response) && Plain(time)
    ensures GetVar(LineText(r, Answered(response, time)), NameText(Response)) == response
  {
    AnsweredText(r, response, time);
    TimeMentions(time, Response);
    NameWritten(Response);
    MentionsSplit(response, "time=" + time, NameText(Response));
    LowerEquals(NameText(Response));
    GetVarAt(RequestText(r) + ";", NameText(Response) + "=", NameText(Response), response, "time=" + time);
  }
}
