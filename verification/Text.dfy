/** String primitives shared by the PHP and the Arduino side: searching, case folding, trimming
    and decimal numbers. A string is a sequence of bytes in both languages, so a `char` is a byte. */
module Text {

  // ---------------------------------------------------------------- searching

  predicate At(s: string, t: string, i: int) {
    0 <= i && i + |t| <= |s| && s[i..i + |t|] == t
  }

  /** First occurrence of t in s at or after `from`, or -1 (String.indexOf). */
  function IndexOf(s: string, t: string, from: nat): (r: int)
    ensures r == -1 || from <= r <= |s| - |t|
    decreases |s| - from
  {
    if from + |t| > |s| then -1
    else if s[from..from + |t|] == t then from
    else IndexOf(s, t, from + 1)
  }

  /** Last occurrence of t in s at or after `from`, or -1. */
  function LastIndexOf(s: string, t: string, from: nat): (r: int)
    ensures r == -1 || from <= r <= |s| - |t|
    decreases |s| - from
  {
    if from + |t| > |s| then -1
    else
      var later := LastIndexOf(s, t, from + 1);
      if later >= 0 then later
      else if s[from..from + |t|] == t then from
      else -1
  }

  /** IndexOf returns the first place the text is at, and -1 only when there is none. */
  lemma IndexOfFirst(s: string, t: string, from: nat)
    ensures var r := IndexOf(s, t, from);
            if r >= 0 then At(s, t, r) && forall j | from <= j < r :: !At(s, t, j)
            else forall j | from <= j :: !At(s, t, j)
    decreases |s| - from
  {
    if from + |t| <= |s| && s[from..from + |t|] != t {
      IndexOfFirst(s, t, from + 1);
    }
  }

  lemma LastIndexOfLast(s: string, t: string, from: nat)
    ensures var r := LastIndexOf(s, t, from);
            if r >= 0 then At(s, t, r) && forall j | r < j :: !At(s, t, j)
            else forall j | from <= j :: !At(s, t, j)
    decreases |s| - from
  {
    if from + |t| <= |s| {
      LastIndexOfLast(s, t, from + 1);
    }
  }

  predicate Contains(s: string, t: string) {
    IndexOf(s, t, 0) >= 0
  }

  lemma ContainsAt(s: string, t: string)
    ensures Contains(s, t) <==> exists i :: At(s, t, i)
  {
    IndexOfFirst(s, t, 0);
  }

  lemma IndexIs(s: string, t: string, from: nat, i: int)
    requires from <= i && At(s, t, i)
    requires forall j | from <= j < i :: !At(s, t, j)
    ensures IndexOf(s, t, from) == i
  {
    IndexOfFirst(s, t, from);
  }

  lemma LastIndexIs(s: string, t: string, from: nat, i: int)
    requires from <= i && At(s, t, i)
    requires forall j | i < j :: !At(s, t, j)
    ensures LastIndexOf(s, t, from) == i
  {
    LastIndexOfLast(s, t, from);
  }

  lemma AtShift(a: string, b: string, t: string, i: int)
    requires |a| <= i
    ensures At(a + b, t, i) <==> At(b, t, i - |a|)
  {
    if i + |t| <= |a + b| {
      assert (a + b)[i..i + |t|] == b[i - |a|..i - |a| + |t|];
    }
  }

  lemma AtPrefix(a: string, b: string, t: string, i: int)
    requires 0 <= i && i + |t| <= |a|
    ensures At(a + b, t, i) <==> At(a, t, i)
  {
    assert (a + b)[i..i + |t|] == a[i..i + |t|];
  }

  /** s goes on with rest from position n. */
  predicate Tail(s: string, n: nat, rest: string) {
    |s| == n + |rest| && forall i | 0 <= i < |rest| :: s[n + i] == rest[i]
  }

  lemma SliceTail(s: string, n: nat, rest: string, i: nat, j: nat, si: nat, sj: nat)
    requires Tail(s, n, rest) && i <= j <= |rest| && si == n + i && sj == n + j
    ensures s[si..sj] == rest[i..j]
  {}

  lemma AtTail(s: string, n: nat, rest: string, t: string, i: nat, si: nat)
    requires Tail(s, n, rest) && si == n + i
    ensures At(s, t, si) <==> At(rest, t, i)
  {
    if i + |t| <= |rest| {
      SliceTail(s, n, rest, i, i + |t|, si, si + |t|);
    }
  }

  /** Searching beyond a prefix is searching the rest. */
  lemma {:induction false} IndexOfTail(s: string, n: nat, rest: string, t: string, i: nat, si: nat)
    requires Tail(s, n, rest) && si == n + i
    ensures IndexOf(s, t, si) == (if IndexOf(rest, t, i) >= 0 then n + IndexOf(rest, t, i) else -1)
    decreases |rest| - i
  {
    AtTail(s, n, rest, t, i, si);
    if i + |t| <= |rest| && !At(rest, t, i) {
      IndexOfTail(s, n, rest, t, i + 1, si + 1);
    }
  }

  /** Nothing found in the prefix: the search goes on in the rest. */
  lemma {:induction false} IndexOfSkip(s: string, n: nat, rest: string, t: string, i: nat)
    requires Tail(s, n, rest) && i <= n && forall j | 0 <= j < n :: !At(s, t, j)
    ensures IndexOf(s, t, i) == (if IndexOf(rest, t, 0) >= 0 then n + IndexOf(rest, t, 0) else -1)
    decreases n - i
  {
    if i == n {
      IndexOfTail(s, n, rest, t, 0, n);
    } else {
      assert !At(s, t, i);
      IndexOfSkip(s, n, rest, t, i + 1);
    }
  }

  lemma CharAt(s: string, t: string, i: int, j: int)
    requires At(s, t, i) && 0 <= j < |t|
    ensures s[i + j] == t[j]
  {
    assert s[i..i + |t|][j] == t[j];
  }

  lemma NotAt(s: string, t: string, i: int, j: int)
    requires 0 <= i && 0 <= j < |t| && (i + j < |s| ==> s[i + j] != t[j])
    ensures !At(s, t, i)
  {
    if At(s, t, i) {
      CharAt(s, t, i, j);
    }
  }

  /** A text without the separator lies on one side of it. */
  lemma ContainsSplit(a: string, c: char, b: string, t: string)
    requires c !in t
    ensures Contains(a + [c] + b, t) <==> Contains(a, t) || Contains(b, t)
  {
    var s := a + [c] + b;
    ContainsAt(s, t); ContainsAt(a, t); ContainsAt(b, t);
    assert s == a + ([c] + b) == (a + [c]) + b;
    if Contains(a, t) {
      var i :| At(a, t, i);
      AtPrefix(a, [c] + b, t, i);
    }
    if Contains(b, t) {
      var i :| At(b, t, i);
      AtShift(a + [c], b, t, i + |a| + 1);
    }
    if Contains(s, t) {
      var i :| At(s, t, i);
      if i + |t| <= |a| {
        AtPrefix(a, [c] + b, t, i);
      } else if i > |a| {
        AtShift(a + [c], b, t, i);
      } else {
        CharAt(s, t, i, |a| - i);
        assert false;
      }
    }
  }

  /** A text whose first character does not occur in a can only be found in b. */
  lemma ContainsSkip(a: string, b: string, t: string)
    requires |t| > 0 && t[0] !in a
    ensures Contains(a + b, t) <==> Contains(b, t)
  {
    ContainsAt(a + b, t); ContainsAt(b, t);
    if Contains(a + b, t) {
      var i :| At(a + b, t, i);
      CharAt(a + b, t, i, 0);
      AtShift(a, b, t, i);
    }
    if Contains(b, t) {
      var i :| At(b, t, i);
      AtShift(a, b, t, i + |a|);
    }
  }

  predicate EndsWith(s: string, t: string) {
    |t| <= |s| && s[|s| - |t|..] == t
  }

  lemma FieldAt(n: string, v: string, m: string, w: string, i: nat)
    requires '=' !in n && '=' !in v && '=' !in m
    ensures At(n + "=" + v, m + "=" + w, i) <==> 0 <= i && i + |m| == |n| && n[i..] == m && w <= v
  {
    var s, t := n + "=" + v, m + "=" + w;
    if i + |m| == |n| && 0 <= i && i + |t| <= |s| {
      var u := s[i..i + |t|];
      assert u == n[i..] + "=" + v[..|w|];
      assert u[..|m|] == n[i..] && u[|m| + 1..] == v[..|w|];
      assert t[..|m|] == m && t[|m| + 1..] == w;
    } else if i + |t| <= |s| {
      NotAt(s, t, i, |m|);
    }
  }

  /** In `name=value` the text `m=w` occurs exactly when m ends the name and w starts the value. */
  lemma ContainsField(n: string, v: string, m: string, w: string)
    requires '=' !in n && '=' !in v && '=' !in m
    ensures Contains(n + "=" + v, m + "=" + w) <==> EndsWith(n, m) && w <= v
  {
    ContainsAt(n + "=" + v, m + "=" + w);
    forall i: nat ensures At(n + "=" + v, m + "=" + w, i) <==> i + |m| == |n| && n[i..] == m && w <= v {
      FieldAt(n, v, m, w, i);
    }
  }

  /** The last `n=` of a text is the one after which no other follows. */
  lemma LastField(p: string, n: string, rest: string)
    requires '=' !in n && !Contains(rest, n + "=")
    ensures LastIndexOf(p + (n + "=") + rest, n + "=", 0) == |p|
  {
    var t := n + "=";
    var s := p + t + rest;
    ContainsAt(rest, t);
    forall j | |p| < j ensures !At(s, t, j) {
      if j >= |p| + |t| {
        AtShift(p + t, rest, t, j);
      } else {
        assert s[|p| + |n|] == '=' && t[|p| + |n| - j] == n[|p| + |n| - j];
        NotAt(s, t, j, |p| + |n| - j);
      }
    }
    assert s[|p|..|p| + |t|] == t;
    LastIndexIs(s, t, 0, |p|);
  }

  /** String.replace: occurrences from left to right, not overlapping. */
  function ReplaceAll(s: string, t: string, u: string): string
    requires t != ""
    decreases |s|
  {
    var i := IndexOf(s, t, 0);
    if i < 0 then s else s[..i] + u + ReplaceAll(s[i + |t|..], t, u)
  }

  /** Replacing changes the first occurrence and goes on after it, and changes nothing when there is none. */
  lemma ReplaceFirst(p: string, t: string, q: string, u: string)
    requires t != "" && forall j | 0 <= j < |p| :: !At(p + t + q, t, j)
    ensures ReplaceAll(p + t + q, t, u) == p + u + ReplaceAll(q, t, u)
  {
    var s := p + t + q;
    assert s[|p|..|p| + |t|] == t;
    IndexIs(s, t, 0, |p|);
    assert s[..|p|] == p && s[|p| + |t|..] == q;
  }

  lemma ReplaceNone(s: string, t: string, u: string)
    requires t != "" && forall j: nat :: !At(s, t, j)
    ensures ReplaceAll(s, t, u) == s
  {
    IndexOfFirst(s, t, 0);
  }

  lemma ContainsFirstChar(s: string, t: string)
    requires t != "" && t[0] !in s
    ensures !Contains(s, t)
  {
    ContainsAt(s, t);
    if Contains(s, t) {
      var i :| At(s, t, i);
      CharAt(s, t, i, 0);
    }
  }

  lemma ContainsChars(s: string, w: string, ch: char)
    requires ch in w
    ensures Contains(s, w) ==> ch in s
  {
    ContainsAt(s, w);
    if i :| At(s, w, i) {
      var k :| 0 <= k < |w| && w[k] == ch;
      CharAt(s, w, i, k);
    }
  }

  lemma ContainsChar(s: string, ch: char)
    ensures Contains(s, [ch]) <==> ch in s
  {
    ContainsAt(s, [ch]);
    ContainsChars(s, [ch], ch);
    if i :| 0 <= i < |s| && s[i] == ch {
      assert At(s, [ch], i);
    }
  }

  lemma ContainsItself(s: string)
    ensures Contains(s, s)
  {
    ContainsAt(s, s);
    assert At(s, s, 0);
  }

  /** The first `n=` of a text is the one before which there is no equals sign. */
  lemma FirstField(p: string, n: string, rest: string)
    requires '=' !in p && '=' !in n
    ensures IndexOf(p + (n + "=") + rest, n + "=", 0) == |p|
  {
    var t := n + "=";
    var s := p + t + rest;
    forall j | 0 <= j < |p| ensures !At(s, t, j) {
      NotAt(s, t, j, |n|);
    }
    assert s[|p|..|p| + |t|] == t;
    IndexIs(s, t, 0, |p|);
  }

  /** A value ends at the first separator after it. */
  lemma ValueEnd(p: string, v: string, c: char, rest: string)
    requires c !in v
    ensures IndexOf(p + v + [c] + rest, [c], |p|) == |p| + |v|
    ensures (p + v + [c] + rest)[|p|..|p| + |v|] == v
  {
    var s := p + v + [c] + rest;
    forall j | |p| <= j < |p| + |v| ensures !At(s, [c], j) {
      NotAt(s, [c], j, 0);
    }
    assert s[|p| + |v|..|p| + |v| + 1] == [c];
    IndexIs(s, [c], |p|, |p| + |v|);
  }

  /** The first place of a character at or after k, or -1. */
  function CharFrom(s: string, c: char, k: nat): (r: int)
    ensures r == -1 || (k <= r < |s| && s[r] == c && c !in s[k..r])
    ensures r == -1 ==> k >= |s| || c !in s[k..]
    decreases |s| - k
  {
    if k >= |s| then -1 else if s[k] == c then k
    else
      var r := CharFrom(s, c, k + 1);
      assert r >= 0 ==> s[k..r] == [s[k]] + s[k + 1..r];
      assert s[k..] == [s[k]] + s[k + 1..];
      r
  }

  lemma {:induction false} CharFromIs(s: string, c: char, k: nat, e: nat)
    requires k <= e < |s| && s[e] == c && c !in s[k..e]
    ensures CharFrom(s, c, k) == e
    decreases e - k
  {
    if k < e {
      assert s[k] == s[k..e][0];
      assert s[k + 1..e] == s[k..e][1..];
      CharFromIs(s, c, k + 1, e);
    }
  }

  /** What a text holds at k when the rest of it is a part, a character and a tail. */
  lemma PartsAt(s: string, k: nat, part: string, c: char, tail: string, e: nat)
    requires k <= |s| && s[k..] == part + ([c] + tail) && e == k + |part|
    ensures e < |s| && s[e] == c && s[k..e] == part && s[e + 1..] == tail
    ensures s[k] == if part == "" then c else part[0]
  {
    var r := s[k..];
    assert r[..|part|] == part && r[|part|] == c && r[|part| + 1..] == tail;
    assert r[0] == s[k];
  }

  // ---------------------------------------------------------------- case folding

  function LowerChar(c: char): char {
    if 'A' <= c <= 'Z' then c - 'A' + 'a' else c
  }

  function Lower(s: string): (r: string)
    ensures |r| == |s| && forall i | 0 <= i < |s| :: r[i] == LowerChar(s[i])
  {
    seq(|s|, i requires 0 <= i < |s| => LowerChar(s[i]))
  }

  lemma LowerConcat(a: string, b: string)
    ensures Lower(a + b) == Lower(a) + Lower(b)
  {}

  /** Folding neither adds nor removes a character that is not a letter. */
  lemma LowerKeeps(s: string, c: char)
    requires !('A' <= c <= 'Z') && !('a' <= c <= 'z')
    ensures c in Lower(s) <==> c in s
  {
    if c in s {
      var i :| 0 <= i < |s| && s[i] == c;
      assert Lower(s)[i] == c;
    }
    if c in Lower(s) {
      var i :| 0 <= i < |s| && Lower(s)[i] == c;
      assert s[i] == c;
    }
  }

  /** strripos($s, $t) !== false */
  predicate HasNoCase(s: string, t: string) {
    Contains(Lower(s), Lower(t))
  }

  // ---------------------------------------------------------------- trimming

  /** Characters removed by PHP's trim(). */
  predicate PhpBlank(c: char) {
    c == ' ' || c == '\t' || c == '\n' || c == '\r' || c == '\0' || c == '\U{000B}'
  }

  /** Characters removed by Arduino's String.trim(), that is isspace(). */
  predicate Space(c: char) {
    c == ' ' || c == '\t' || c == '\n' || c == '\r' || c == '\U{000B}' || c == '\U{000C}'
  }

  function TrimOf(s: string, php: bool): (r: string)
    ensures r == "" || (!Blank(r[0], php) && !Blank(r[|r| - 1], php))
    ensures |r| <= |s|
    decreases |s|
  {
    if s == "" then ""
    else if Blank(s[0], php) then TrimOf(s[1..], php)
    else if Blank(s[|s| - 1], php) then TrimOf(s[..|s| - 1], php)
    else s
  }

  predicate Blank(c: char, php: bool) {
    if php then PhpBlank(c) else Space(c)
  }

  function Trim(s: string): string {
    TrimOf(s, true)
  }

  function TrimSpace(s: string): string {
    TrimOf(s, false)
  }

  /** Neither end is blank for either language. */
  predicate Solid(s: string) {
    s == "" || (!PhpBlank(s[0]) && !Space(s[0]) && !PhpBlank(s[|s| - 1]) && !Space(s[|s| - 1]))
  }

  /** The characters of PHP's trim() and of isspace(). */
  const PHP_BLANKS := " \t\n\r\0\U{000B}"
  const SPACES := " \t\n\r\U{000B}\U{000C}"

  lemma BlankIff(c: char)
    ensures PhpBlank(c) <==> c in PHP_BLANKS
    ensures Space(c) <==> c in SPACES
  {
    assert PHP_BLANKS == [' ', '\t', '\n', '\r', '\0', '\U{000B}'];
    assert SPACES == [' ', '\t', '\n', '\r', '\U{000B}', '\U{000C}'];
  }

  lemma {:induction false} TrimPadded(a: string, v: string, b: string, php: bool)
    requires forall i | 0 <= i < |a| :: Blank(a[i], php)
    requires forall i | 0 <= i < |b| :: Blank(b[i], php)
    requires v != "" ==> !Blank(v[0], php) && !Blank(v[|v| - 1], php)
    ensures TrimOf(a + v + b, php) == v
    decreases |a| + |b|
  {
    var s := a + v + b;
    if a != "" {
      assert s[0] == a[0] && s[1..] == a[1..] + v + b;
      TrimPadded(a[1..], v, b, php);
    } else if b != "" {
      if v == "" {
        assert s[0] == b[0] && s[1..] == a + v + b[1..];
        TrimPadded(a, v, b[1..], php);
      } else {
        assert s[0] == v[0] && s[|s| - 1] == b[|b| - 1] && s[..|s| - 1] == a + v + b[..|b| - 1];
        TrimPadded(a, v, b[..|b| - 1], php);
      }
    } else {
      assert s == v;
    }
  }

  predicate AllIn(s: string, cs: string) {
    forall i | 0 <= i < |s| :: s[i] in cs
  }

  predicate EndsOutside(s: string, cs: string) {
    s != "" ==> s[0] !in cs && s[|s| - 1] !in cs
  }

  /** Trimming removes just the blanks around a text, whichever they are. */
  lemma TrimIs(a: string, v: string, b: string)
    requires AllIn(a, PHP_BLANKS) && AllIn(b, PHP_BLANKS) && EndsOutside(v, PHP_BLANKS)
    ensures Trim(a + v + b) == v
  {
    forall c: char ensures PhpBlank(c) <==> c in PHP_BLANKS {
      BlankIff(c);
    }
    TrimPadded(a, v, b, true);
  }

  lemma TrimSpaceIs(a: string, v: string, b: string)
    requires AllIn(a, SPACES) && AllIn(b, SPACES) && EndsOutside(v, SPACES)
    ensures TrimSpace(a + v + b) == v
  {
    forall c: char ensures Space(c) <==> c in SPACES {
      BlankIff(c);
    }
    TrimPadded(a, v, b, false);
  }

  lemma TrimLine(s: string)
    requires s == Trim(s)
    ensures Trim(s + "\n") == s
  {
    if s != "" {
      assert (s + "\n")[..|s|] == s;
      assert s == TrimOf(s, true);
    }
  }

  lemma TrimTwice(s: string)
    ensures Trim(Trim(s)) == Trim(s)
  {}

  lemma TrimKeepsFree(s: string, c: char)
    requires c !in s
    ensures c !in Trim(s)
    decreases |s|
  {
    if s != "" && PhpBlank(s[0]) {
      TrimKeepsFree(s[1..], c);
    } else if s != "" && PhpBlank(s[|s| - 1]) {
      TrimKeepsFree(s[..|s| - 1], c);
    }
  }

  // ---------------------------------------------------------------- numbers

  predicate Digit(c: char) {
    '0' <= c <= '9'
  }

  /** An integer converted to a string. */
  function Decimal(n: nat): (r: string)
    ensures |r| > 0 && forall i | 0 <= i < |r| :: Digit(r[i])
  {
    if n < 10 then ['0' + n as char] else Decimal(n / 10) + ['0' + (n % 10) as char]
  }

  function DigitValue(c: char): nat
    requires Digit(c)
  {
    c as int - '0' as int
  }

  function Value(s: string): nat
    requires forall i | 0 <= i < |s| :: Digit(s[i])
  {
    if s == "" then 0 else Value(s[..|s| - 1]) * 10 + DigitValue(s[|s| - 1])
  }

  lemma {:induction false} DecimalValue(n: nat)
    ensures Value(Decimal(n)) == n
  {
    if n >= 10 {
      DecimalValue(n / 10);
      var d := Decimal(n);
      assert d[..|d| - 1] == Decimal(n / 10);
    }
  }

  /** The digits at the start of a text. */
  function LeadingDigits(s: string): (r: string)
    ensures r <= s && forall i | 0 <= i < |r| :: Digit(r[i])
  {
    if s != "" && Digit(s[0]) then [s[0]] + LeadingDigits(s[1..]) else ""
  }

  /** (int)$s for a text that starts with a digit or with something that is not a number. */
  function PhpInt(s: string): nat {
    Value(LeadingDigits(s))
  }

  lemma {:induction false} LeadingOf(d: string, rest: string)
    requires forall i | 0 <= i < |d| :: Digit(d[i])
    requires rest == "" || !Digit(rest[0])
    ensures LeadingDigits(d + rest) == d
  {
    if d == "" {
      assert d + rest == rest;
    } else {
      assert (d + rest)[1..] == d[1..] + rest;
      LeadingOf(d[1..], rest);
    }
  }
}
