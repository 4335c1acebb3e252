/** Matching a request path against a template with `{}` parameters (RequestHandlersImpl.h). */
module UriTemplate {
  import opened Text

  // ---------------------------------------------------------------- templates and their instances

  /** Every opening brace is part of a `{}`. */
  predicate Braced(u: string) {
    forall i | 0 <= i < |u| && u[i] == '{' :: i + 1 < |u| && u[i + 1] == '}'
  }

  /** No two parameters touch, either. */
  predicate WellFormed(u: string) {
    Braced(u) && forall i | 0 <= i < |u| && u[i] == '{' :: i + 2 < |u| ==> u[i + 2] != '{'
  }

  /** The template with arguments put in for its parameters, from position i on. */
  function Substitute(u: string, i: nat, args: seq<string>): string
    decreases |u| - i
  {
    if i >= |u| then ""
    else if u[i] == '{' && args != [] then args[0] + Substitute(u, i + 2, args[1..])
    else [u[i]] + Substitute(u, i + 1, args)
  }

  /** How many parameters start at position i or later. */
  function Params(u: string, i: nat): nat
    decreases |u| - i
  {
    if i >= |u| then 0 else if u[i] == '{' then 1 + Params(u, i + 2) else Params(u, i + 1)
  }

  /** The character an argument must not contain: the one after its parameter, or a slash at the end. */
  function Stop(u: string, i: nat): char {
    if i + 2 < |u| then u[i + 2] else '/'
  }

  /** One argument for each parameter, each free of its stop character. */
  predicate Fits(u: string, i: nat, args: seq<string>)
    decreases |u| - i
  {
    if i >= |u| then args == []
    else if u[i] == '{' then args != [] && Stop(u, i) !in args[0] && Fits(u, i + 2, args[1..])
    else Fits(u, i + 1, args)
  }

  lemma {:induction false} FitsCount(u: string, i: nat, args: seq<string>)
    requires Fits(u, i, args)
    ensures |args| == Params(u, i)
    decreases |u| - i
  {
    if i < |u| {
      if u[i] == '{' {
        FitsCount(u, i + 2, args[1..]);
      } else {
        FitsCount(u, i + 1, args);
      }
    }
  }

  // ---------------------------------------------------------------- what the matching loop computes

  datatype Match = NoMatch | Args(args: seq<string>)

  function Cons(arg: string, m: Match): Match {
    if m.NoMatch? then NoMatch else Args([arg] + m.args)
  }

  /** Matching from template position i and request position k; a position past the end of the request
      reads as the null character. */
  function MatchFrom(u: string, i: nat, req: string, k: nat): Match
    requires k <= |req|
    decreases |u| - i
  {
    if i >= |u| then (if k >= |req| then Args([]) else NoMatch)
    else if k < |req| && u[i] == req[k] then MatchFrom(u, i + 1, req, k + 1)
    else if u[i] != '{' then NoMatch
    else if i + 2 >= |u| then
      (if '/' in req[k..] then NoMatch else Args([req[k..]]))
    else
      var e := CharFrom(req, u[i + 2], k);
      if e < 0 then NoMatch else Cons(req[k..e], MatchFrom(u, i + 3, req, e + 1))
  }

  /** What the loop leaves in `pathArgs`, whether or not it succeeds. */
  function Captured(u: string, i: nat, req: string, k: nat): seq<string>
    requires k <= |req|
    decreases |u| - i
  {
    if i >= |u| then []
    else if k < |req| && u[i] == req[k] then Captured(u, i + 1, req, k + 1)
    else if u[i] != '{' then []
    else if i + 2 >= |u| then [req[k..]]
    else
      var e := CharFrom(req, u[i + 2], k);
      if e < 0 then [] else [req[k..e]] + Captured(u, i + 3, req, e + 1)
  }

  lemma {:induction false} CapturedArgs(u: string, i: nat, req: string, k: nat)
    requires k <= |req| && MatchFrom(u, i, req, k).Args?
    ensures Captured(u, i, req, k) == MatchFrom(u, i, req, k).args
    decreases |u| - i
  {
    if i >= |u| {
    } else if k < |req| && u[i] == req[k] {
      CapturedArgs(u, i + 1, req, k + 1);
    } else if i + 2 < |u| {
      CapturedArgs(u, i + 3, req, CharFrom(req, u[i + 2], k) + 1);
    }
  }

  // ---------------------------------------------------------------- soundness and completeness

  /** A brace in the request is taken for the template's own, so an argument must not start with one. */
  predicate NoBraceFirst(args: seq<string>) {
    forall j | 0 <= j < |args| :: args[j] == "" || args[j][0] != '{'
  }

  lemma {:induction false} MatchAtMost(u: string, i: nat, req: string, k: nat)
    requires WellFormed(u) && k <= |req| && MatchFrom(u, i, req, k).Args?
    ensures |MatchFrom(u, i, req, k).args| <= Params(u, i)
    decreases |u| - i
  {
    if i >= |u| {
    } else if k < |req| && u[i] == req[k] {
      MatchAtMost(u, i + 1, req, k + 1);
      BraceParams(u, i);
    } else if i + 2 < |u| {
      MatchAtMost(u, i + 3, req, CharFrom(req, u[i + 2], k) + 1);
      BraceParams(u, i);
    }
  }

  lemma BraceParams(u: string, i: nat)
    requires WellFormed(u) && i < |u|
    ensures u[i] == '{' ==> Params(u, i) == 1 + Params(u, i + 1)
    ensures u[i] == '{' && i + 2 < |u| ==> Params(u, i) == 1 + Params(u, i + 3)
    ensures u[i] != '{' ==> Params(u, i) == Params(u, i + 1)
  {
    BracedParams(u, i);
  }

  lemma BracedParams(u: string, i: nat)
    requires Braced(u) && i < |u|
    ensures u[i] == '{' ==> Params(u, i) == 1 + Params(u, i + 1)
    ensures u[i] == '{' && i + 2 < |u| ==>
              Params(u, i) == 1 + Params(u, i + 3) + if u[i + 2] == '{' then 1 else 0
    ensures u[i] != '{' ==> Params(u, i) == Params(u, i + 1)
    decreases |u| - i
  {
    if u[i] == '{' {
      assert u[i + 1] == '}';
      assert Params(u, i + 1) == Params(u, i + 2);
      if i + 2 < |u| && u[i + 2] == '{' {
        BracedParams(u, i + 2);
      }
    }
  }

  /** On success with an argument for every parameter, the arguments fit and, put back into the
      template, give the request. */
  lemma {:induction false} MatchSound(u: string, i: nat, req: string, k: nat, args: seq<string>)
    requires WellFormed(u) && k <= |req| && MatchFrom(u, i, req, k) == Args(args) && |args| == Params(u, i)
    ensures Fits(u, i, args) && Substitute(u, i, args) == req[k..] && NoBraceFirst(args)
    decreases |u| - i
  {
    if i >= |u| {
    } else if k < |req| && u[i] == req[k] {
      BraceParams(u, i);
      if u[i] == '{' {
        MatchAtMost(u, i + 1, req, k + 1);
        assert false;
      } else {
        MatchSound(u, i + 1, req, k + 1, args);
        assert req[k..] == [req[k]] + req[k + 1..];
      }
    } else if i + 2 >= |u| {
      LastParam(u, i, req[k..]);
    } else {
      SoundParam(u, i, req, k, args);
    }
  }

  lemma {:induction false} SoundParam(u: string, i: nat, req: string, k: nat, args: seq<string>)
    requires WellFormed(u) && k <= |req| && MatchFrom(u, i, req, k) == Args(args) && |args| == Params(u, i)
    requires i + 2 < |u| && u[i] == '{' && (k < |req| ==> req[k] != '{')
    ensures Fits(u, i, args) && Substitute(u, i, args) == req[k..] && NoBraceFirst(args)
    decreases |u| - i, 0
  {
    var e := CharFrom(req, u[i + 2], k);
    var arg, rest := req[k..e], args[1..];
    BraceParams(u, i);
    assert MatchFrom(u, i + 3, req, e + 1) == Args(rest);
    MatchSound(u, i + 3, req, e + 1, rest);
    assert args == [arg] + rest;
    JoinParam(u, i, arg, rest, req, k, e);
  }

  lemma JoinParam(u: string, i: nat, arg: string, rest: seq<string>, req: string, k: nat, e: nat)
    requires i + 2 < |u| && u[i] == '{' && u[i + 2] != '{'
    requires k <= e < |req| && req[e] == u[i + 2] && arg == req[k..e] && u[i + 2] !in arg && req[k] != '{'
    requires Fits(u, i + 3, rest) && Substitute(u, i + 3, rest) == req[e + 1..] && NoBraceFirst(rest)
    ensures Fits(u, i, [arg] + rest) && Substitute(u, i, [arg] + rest) == req[k..] && NoBraceFirst([arg] + rest)
  {
    assert arg == "" || arg[0] == req[k];
    MatchedJoin(u, i, req, k, e, rest);
  }

  lemma LastParam(u: string, i: nat, arg: string)
    requires i < |u| <= i + 2 && u[i] == '{'
    ensures Substitute(u, i, [arg]) == arg
    ensures Fits(u, i, [arg]) <==> '/' !in arg
  {
    assert [arg][1..] == [] && arg + "" == arg;
  }

  lemma ParamThenStop(u: string, i: nat, arg: string, rest: seq<string>)
    requires i + 2 < |u| && u[i] == '{' && u[i + 2] != '{'
    ensures Substitute(u, i, [arg] + rest) == arg + ([u[i + 2]] + Substitute(u, i + 3, rest))
    ensures Fits(u, i, [arg] + rest) <==> u[i + 2] !in arg && Fits(u, i + 3, rest)
  {
    assert ([arg] + rest)[1..] == rest;
  }

  /** An instance of the template is matched, and exactly its arguments are found. */
  lemma {:induction false} MatchComplete(u: string, i: nat, req: string, k: nat, args: seq<string>)
    requires WellFormed(u) && k <= |req| && NoBraceFirst(args)
    requires Fits(u, i, args) && Substitute(u, i, args) == req[k..]
    ensures MatchFrom(u, i, req, k) == Args(args)
    decreases |u| - i
  {
    if i >= |u| {
    } else if u[i] != '{' {
      var rest := Substitute(u, i + 1, args);
      assert req[k..] == [u[i]] + rest;
      assert req[k] == req[k..][0];
      assert req[k + 1..] == req[k..][1..];
      MatchComplete(u, i + 1, req, k + 1, args);
    } else if i + 2 >= |u| {
      assert args == [args[0]] + args[1..];
      assert args[1..] == [];
      LastParam(u, i, args[0]);
      assert k < |req| ==> req[k] == args[0][0];
    } else {
      CompleteParam(u, i, req, k, args);
    }
  }

  lemma SplitParam(u: string, i: nat, args: seq<string>)
    requires WellFormed(u) && i + 2 < |u| && u[i] == '{' && Fits(u, i, args) && NoBraceFirst(args)
    ensures args != [] && u[i + 2] !in args[0] && (args[0] == "" || args[0][0] != '{')
    ensures Fits(u, i + 3, args[1..]) && NoBraceFirst(args[1..])
    ensures Substitute(u, i, args) == args[0] + ([u[i + 2]] + Substitute(u, i + 3, args[1..]))
  {
    assert args == [args[0]] + args[1..];
    ParamThenStop(u, i, args[0], args[1..]);
  }

  lemma MatchParam(u: string, i: nat, req: string, k: nat, e: nat, rest: seq<string>)
    requires i + 2 < |u| && u[i] == '{' && k <= e < |req| && req[k] != '{' && CharFrom(req, u[i + 2], k) == e
    requires MatchFrom(u, i + 3, req, e + 1) == Args(rest)
    ensures MatchFrom(u, i, req, k) == Args([req[k..e]] + rest)
  {}

  lemma {:induction false} CompleteParam(u: string, i: nat, req: string, k: nat, args: seq<string>)
    requires WellFormed(u) && k <= |req| && i + 2 < |u| && u[i] == '{' && NoBraceFirst(args)
    requires Fits(u, i, args) && Substitute(u, i, args) == req[k..]
    ensures MatchFrom(u, i, req, k) == Args(args)
    decreases |u| - i, 0
  {
    SplitParam(u, i, args);
    var arg, rest, e := args[0], args[1..], k + |args[0]|;
    assert args == [arg] + rest;
    PartsAt(req, k, arg, u[i + 2], Substitute(u, i + 3, rest), e);
    CharFromIs(req, u[i + 2], k, e);
    MatchComplete(u, i + 3, req, e + 1, rest);
    MatchParam(u, i, req, k, e, rest);
  }

  /** The path test succeeds with an argument for every parameter exactly on the instances of the
      template none of whose arguments starts with a brace, and finds exactly those arguments. */
  lemma MatchIff(u: string, req: string, args: seq<string>)
    requires WellFormed(u)
    ensures MatchFrom(u, 0, req, 0) == Args(args) && |args| == Params(u, 0)
            <==> Fits(u, 0, args) && Substitute(u, 0, args) == req && NoBraceFirst(args)
  {
    assert req[0..] == req;
    if MatchFrom(u, 0, req, 0) == Args(args) && |args| == Params(u, 0) {
      MatchSound(u, 0, req, 0, args);
    }
    if Fits(u, 0, args) && Substitute(u, 0, args) == req && NoBraceFirst(args) {
      MatchComplete(u, 0, req, 0, args);
      FitsCount(u, 0, args);
    }
  }

  lemma {:induction false} BracelessCount(u: string, i: nat, req: string, k: nat)
    requires WellFormed(u) && k <= |req| && '{' !in req && MatchFrom(u, i, req, k).Args?
    ensures |MatchFrom(u, i, req, k).args| == Params(u, i)
    decreases |u| - i
  {
    if i < |u| {
      BraceParams(u, i);
      if u[i] != '{' {
        BracelessCount(u, i + 1, req, k + 1);
      } else if i + 2 < |u| {
        BracelessCount(u, i + 3, req, CharFrom(req, u[i + 2], k) + 1);
      }
    }
  }

  lemma {:induction false} BracelessArgs(u: string, i: nat, args: seq<string>)
    requires Fits(u, i, args) && '{' !in Substitute(u, i, args)
    ensures NoBraceFirst(args)
    decreases |u| - i
  {
    if i < |u| {
      if u[i] != '{' {
        BracelessArgs(u, i + 1, args);
      } else {
        var rest := Substitute(u, i + 2, args[1..]);
        assert Substitute(u, i, args) == args[0] + rest;
        BracelessArgs(u, i + 2, args[1..]);
        assert forall j | 0 < j < |args| :: args[j] == args[1..][j - 1];
      }
    }
  }

  /** When every parameter is followed by a slash or ends the template, fitting means free of slashes. */
  predicate SlashDelimited(u: string) {
    forall i | 0 <= i < |u| && u[i] == '{' :: Stop(u, i) == '/'
  }

  predicate SlashFree(args: seq<string>) {
    forall j | 0 <= j < |args| :: '/' !in args[j]
  }

  lemma {:induction false} FitsIsSlashFree(u: string, i: nat, args: seq<string>)
    requires SlashDelimited(u)
    ensures Fits(u, i, args) <==> |args| == Params(u, i) && SlashFree(args)
    decreases |u| - i
  {
    if i < |u| {
      if u[i] != '{' {
        FitsIsSlashFree(u, i + 1, args);
      } else if args != [] {
        assert Stop(u, i) == '/';
        FitsIsSlashFree(u, i + 2, args[1..]);
        assert forall j | 0 < j < |args| :: args[j] == args[1..][j - 1];
        assert forall j | 0 <= j < |args[1..]| :: args[1..][j] == args[j + 1];
      }
    }
  }

  /** The whole path test, as a registered handler makes it. */
  predicate PathTest(u: string, req: string) {
    u == req || MatchFrom(u, 0, req, 0).Args?
  }

  /** No parameter is followed by a closing brace. */
  predicate NoBraceStop(u: string) {
    forall i | 0 <= i < |u| && u[i] == '{' :: Stop(u, i) != '}'
  }

  /** An argument that starts with a brace gets through only if it is the parameter sign itself. */
  predicate Passes(arg: string) {
    arg == "" || arg[0] != '{' || arg == "{}"
  }

  predicate AllPass(args: seq<string>) {
    forall j | 0 <= j < |args| :: Passes(args[j])
  }

  /** The arguments that are not the parameter sign. */
  function Stored(args: seq<string>): seq<string> {
    if args == [] then [] else if args[0] == "{}" then Stored(args[1..]) else [args[0]] + Stored(args[1..])
  }

  lemma AllPassSplit(args: seq<string>)
    requires args != []
    ensures AllPass(args) <==> Passes(args[0]) && AllPass(args[1..])
  {
    assert forall j | 0 < j < |args| :: args[j] == args[1..][j - 1];
    assert forall j | 0 <= j < |args[1..]| :: args[1..][j] == args[j + 1];
  }

  function Outcome(args: seq<string>): Match {
    if AllPass(args) then Args(Stored(args)) else NoMatch
  }

  lemma OutcomeSplit(args: seq<string>)
    requires args != []
    ensures Outcome(args) == if !Passes(args[0]) then NoMatch
                             else if args[0] == "{}" then Outcome(args[1..]) else Cons(args[0], Outcome(args[1..]))
  {
    AllPassSplit(args);
  }

  /** What the loop does on every instance of a template: it is refused if some argument starts with a
      brace without being "{}", and otherwise matched, with the arguments that are "{}" left out. */
  lemma {:induction false} MatchInstance(u: string, i: nat, req: string, k: nat, args: seq<string>)
    requires WellFormed(u) && NoBraceStop(u) && k <= |req|
    requires Fits(u, i, args) && Substitute(u, i, args) == req[k..]
    ensures MatchFrom(u, i, req, k) == Outcome(args)
    decreases |u| - i
  {
    if i >= |u| {
    } else if u[i] != '{' {
      var rest := Substitute(u, i + 1, args);
      assert req[k..] == [u[i]] + rest;
      assert req[k] == req[k..][0];
      assert req[k + 1..] == req[k..][1..];
      MatchInstance(u, i + 1, req, k + 1, args);
    } else if i + 2 >= |u| {
      assert args == [args[0]] + [];
      LastParam(u, i, args[0]);
      OutcomeSplit(args);
      MatchLast(u, i, req, k, args[0]);
    } else {
      assert args == [args[0]] + args[1..];
      ParamThenStop(u, i, args[0], args[1..]);
      PartsAt(req, k, args[0], u[i + 2], Substitute(u, i + 3, args[1..]), k + |args[0]|);
      OutcomeSplit(args);
      MatchInstance(u, i + 3, req, k + |args[0]| + 1, args[1..]);
      MatchArg(u, i, req, k, args[0], k + |args[0]|, Outcome(args[1..]));
    }
  }

  /** A parameter that ends the template. */
  lemma MatchLast(u: string, i: nat, req: string, k: nat, arg: string)
    requires WellFormed(u) && i < |u| <= i + 2 && u[i] == '{' && k <= |req| && arg == req[k..] && '/' !in arg
    ensures MatchFrom(u, i, req, k) == if !Passes(arg) then NoMatch else if arg == "{}" then Args([]) else Args([arg])
  {
    assert u[i + 1] == '}' && |u| == i + 2;
    assert forall j | 0 <= j < |arg| :: arg[j] == req[k + j];
    if arg != "" && arg[0] == '{' {
      BraceStep(u, i, req, k, arg);
    }
  }

  /** A brace in the request is matched by the template's own, and then the closing one must follow. */
  lemma BraceStep(u: string, i: nat, req: string, k: nat, arg: string)
    requires WellFormed(u) && i < |u| && u[i] == '{' && k < |req| && req[k] == '{'
    requires |arg| > 0 && k + |arg| <= |req| && forall j | 0 <= j < |arg| :: arg[j] == req[k + j]
    ensures MatchFrom(u, i, req, k) ==
            if k + 1 < |req| && req[k + 1] == '}' then MatchFrom(u, i + 2, req, k + 2) else NoMatch
  {
    assert u[i + 1] == '}';
    assert MatchFrom(u, i, req, k) == MatchFrom(u, i + 1, req, k + 1);
  }

  /** A parameter that its stop character follows, in the template and in the request. */
  lemma MatchArg(u: string, i: nat, req: string, k: nat, arg: string, e: nat, m: Match)
    requires WellFormed(u) && NoBraceStop(u) && i + 2 < |u| && u[i] == '{'
    requires k <= |req| && e == k + |arg| < |req| && arg == req[k..e] && req[e] == u[i + 2] && u[i + 2] !in arg
    requires MatchFrom(u, i + 3, req, e + 1) == m
    ensures MatchFrom(u, i, req, k) == if !Passes(arg) then NoMatch else if arg == "{}" then m else Cons(arg, m)
  {
    assert Stop(u, i) != '}';
    assert forall j | 0 <= j < |arg| :: arg[j] == req[k + j];
    if arg != "" && arg[0] == '{' {
      BraceStep(u, i, req, k, arg);
      if |arg| > 1 && arg[1] == '}' {
        AfterSign(u, i, req, k, arg, e, m);
      }
    } else {
      CharFromIs(req, u[i + 2], k, e);
    }
  }

  lemma AfterSign(u: string, i: nat, req: string, k: nat, arg: string, e: nat, m: Match)
    requires WellFormed(u) && i + 2 < |u| && u[i] == '{' && |arg| >= 2 && e == k + |arg| < |req|
    requires forall j | 0 <= j < |arg| :: arg[j] == req[k + j]
    requires arg[0] == '{' && arg[1] == '}' && req[e] == u[i + 2] && u[i + 2] !in arg
    requires MatchFrom(u, i + 3, req, e + 1) == m
    ensures MatchFrom(u, i + 2, req, k + 2) == if arg == "{}" then m else NoMatch
  {
    if |arg| == 2 {
      assert arg == "{}";
    } else {
      assert arg[2] == req[k + 2];
    }
  }

  lemma {:induction false} SelfMatch(u: string, i: nat)
    requires i <= |u|
    ensures MatchFrom(u, i, u, i) == Args([])
    decreases |u| - i
  {
    if i < |u| {
      SelfMatch(u, i + 1);
    }
  }

  /** The test on every instance, with or without braces in the request. */
  lemma InstanceIff(u: string, req: string, args: seq<string>)
    requires WellFormed(u) && NoBraceStop(u) && Fits(u, 0, args) && Substitute(u, 0, args) == req
    ensures PathTest(u, req) <==> AllPass(args)
    ensures PathTest(u, req) ==> Captured(u, 0, req, 0) == Stored(args)
    ensures Captured(u, 0, req, 0) == args && PathTest(u, req) <==> NoBraceFirst(args)
  {
    assert req[0..] == req;
    SelfMatch(u, 0);
    MatchInstance(u, 0, req, 0, args);
    MatchIff(u, req, args);
    FitsCount(u, 0, args);
    if PathTest(u, req) {
      CapturedArgs(u, 0, req, 0);
    }
  }

  /** Only instances pass the test. */
  lemma {:induction false} MatchedInstance(u: string, i: nat, req: string, k: nat) returns (args: seq<string>)
    requires WellFormed(u) && NoBraceStop(u) && k <= |req| && MatchFrom(u, i, req, k).Args?
    ensures Fits(u, i, args) && Substitute(u, i, args) == req[k..]
    decreases |u| - i
  {
    if i >= |u| {
      args := [];
    } else if u[i] != '{' {
      args := MatchedInstance(u, i + 1, req, k + 1);
      assert req[k..] == [req[k]] + req[k + 1..];
    } else if k < |req| && req[k] == '{' {
      assert u[i + 1] == '}';
      var rest := MatchedInstance(u, i + 2, req, k + 2);
      SignJoin(u, i, rest);
      args := ["{}"] + rest;
      assert req[k..] == "{}" + req[k + 2..];
    } else if i + 2 >= |u| {
      args := [req[k..]];
      LastParam(u, i, req[k..]);
    } else {
      var e := CharFrom(req, u[i + 2], k);
      var rest := MatchedInstance(u, i + 3, req, e + 1);
      args := [req[k..e]] + rest;
      MatchedJoin(u, i, req, k, e, rest);
    }
  }

  lemma SignJoin(u: string, i: nat, rest: seq<string>)
    requires WellFormed(u) && NoBraceStop(u) && i < |u| && u[i] == '{' && Fits(u, i + 2, rest)
    ensures Fits(u, i, ["{}"] + rest) && Substitute(u, i, ["{}"] + rest) == "{}" + Substitute(u, i + 2, rest)
  {
    assert Stop(u, i) != '}';
    assert (["{}"] + rest)[1..] == rest;
  }

  lemma MatchedJoin(u: string, i: nat, req: string, k: nat, e: nat, rest: seq<string>)
    requires i + 2 < |u| && u[i] == '{' && u[i + 2] != '{'
    requires k <= e < |req| && req[e] == u[i + 2] && u[i + 2] !in req[k..e]
    requires Fits(u, i + 3, rest) && Substitute(u, i + 3, rest) == req[e + 1..]
    ensures Fits(u, i, [req[k..e]] + rest) && Substitute(u, i, [req[k..e]] + rest) == req[k..]
  {
    ParamThenStop(u, i, req[k..e], rest);
    assert req[k..] == req[k..e] + ([req[e]] + req[e + 1..]);
  }

  /** The exact path test: the request is an instance of the template each of whose arguments either does
      not start with a brace or is "{}". */
  lemma PathTestExact(u: string, req: string)
    requires WellFormed(u) && NoBraceStop(u)
    ensures PathTest(u, req) <==>
            exists args :: Substitute(u, 0, args) == req && Fits(u, 0, args) && AllPass(args)
  {
    if PathTest(u, req) {
      SelfMatch(u, 0);
      var args := MatchedInstance(u, 0, req, 0);
      assert req[0..] == req;
      InstanceIff(u, req, args);
    }
    if args :| Substitute(u, 0, args) == req && Fits(u, 0, args) && AllPass(args) {
      InstanceIff(u, req, args);
    }
  }

  /** Where every parameter ends at a slash or at the end, the test holds exactly when slash-free
      arguments give the request, each of which either does not start with a brace or is "{}". */
  lemma PathTestIff(u: string, req: string)
    requires WellFormed(u) && SlashDelimited(u)
    ensures PathTest(u, req) <==>
            exists args :: Substitute(u, 0, args) == req && |args| == Params(u, 0) && SlashFree(args) && AllPass(args)
  {
    PathTestExact(u, req);
    if args :| Substitute(u, 0, args) == req && Fits(u, 0, args) && AllPass(args) {
      FitsIsSlashFree(u, 0, args);
    }
    if args :| Substitute(u, 0, args) == req && |args| == Params(u, 0) && SlashFree(args) && AllPass(args) {
      FitsIsSlashFree(u, 0, args);
    }
  }

  /** For requests without a brace: the test holds exactly when slash-free arguments give the request. */
  lemma BracelessPathTest(u: string, req: string)
    requires WellFormed(u) && SlashDelimited(u) && '{' !in req
    ensures PathTest(u, req) <==>
            exists args :: Substitute(u, 0, args) == req && |args| == Params(u, 0) && SlashFree(args)
  {
    if PathTest(u, req) {
      if u == req {
        NoParams(u, 0);
        assert u[0..] == u;
        assert Substitute(u, 0, []) == req;
        assert SlashFree([]);
      } else {
        BracelessCount(u, 0, req, 0);
        var args := MatchFrom(u, 0, req, 0).args;
        MatchIff(u, req, args);
        FitsIsSlashFree(u, 0, args);
      }
    }
    if args :| Substitute(u, 0, args) == req && |args| == Params(u, 0) && SlashFree(args) {
      FitsIsSlashFree(u, 0, args);
      BracelessArgs(u, 0, args);
      MatchIff(u, req, args);
    }
  }

  /** The request is accepted, but its second argument is stored as the first and the second is stale. */
  lemma WrongArgument()
    ensures var u, req, args := "/{}/{}", "/{}/x", ["{}", "x"];
            && WellFormed(u) && SlashDelimited(u) && Fits(u, 0, args) && Substitute(u, 0, args) == req
            && PathTest(u, req) && Captured(u, 0, req, 0) == ["x"]
  {
    var u, req, args := "/{}/{}", "/{}/x", ["{}", "x"];
    assert args[1..] == ["x"];
    LastParam(u, 4, "x");
    ParamThenStop(u, 1, "{}", ["x"]);
    assert args == ["{}"] + ["x"];
    assert Substitute(u, 0, args) == ['/'] + ("{}" + (['/'] + "x"));
    assert Stored(["x"]) == ["x"] + Stored([]);
    InstanceIff(u, req, args);
  }

  lemma {:induction false} NoParams(u: string, i: nat)
    requires '{' !in u && i <= |u|
    ensures Params(u, i) == 0 && Substitute(u, i, []) == u[i..]
    decreases |u| - i
  {
    if i < |u| {
      NoParams(u, i + 1);
    }
  }

  /** A request whose argument starts with a brace is refused although it is an instance. */
  lemma BraceRefused()
    ensures Substitute("/{}", 0, ["{a"]) == "/{a" && Fits("/{}", 0, ["{a"]) && !PathTest("/{}", "/{a")
  {
    var u, req := "/{}", "/{a";
    LastParam(u, 1, "{a");
    assert Substitute(u, 0, ["{a"]) == ['/'] + "{a";
    assert MatchFrom(u, 2, req, 2) == NoMatch;
    assert MatchFrom(u, 1, req, 1) == NoMatch;
  }

  // ---------------------------------------------------------------- counting parameters

  /** The constructor's count from a search position: it goes on while the search finds something
      beyond position 0. */
  function Counted(u: string, start: nat): nat
    decreases |u| - start
  {
    var at := IndexOf(u, "{}", start);
    if at > 0 then 1 + Counted(u, at + 2) else 0
  }

  lemma {:induction false} CountedParams(u: string, start: nat)
    requires Braced(u) && 0 < start
    ensures Counted(u, start) == Params(u, start)
    decreases |u| - start
  {
    var at := IndexOf(u, "{}", start);
    IndexOfFirst(u, "{}", start);
    if at > 0 {
      SkipPlain(u, start, at);
      CharAt(u, "{}", at, 0);
      CountedParams(u, at + 2);
    } else if start < |u| {
      SkipPlain(u, start, |u|);
    }
  }

  lemma {:induction false} SkipPlain(u: string, i: nat, stop: nat)
    requires Braced(u) && i <= stop <= |u| && forall j | i <= j < stop :: !At(u, "{}", j)
    ensures Params(u, i) == Params(u, stop)
    decreases stop - i
  {
    if i < stop {
      BraceAt(u, i);
      SkipPlain(u, i + 1, stop);
    }
  }

  lemma BraceAt(u: string, i: nat)
    requires Braced(u) && i < |u|
    ensures u[i] == '{' ==> At(u, "{}", i)
  {
    if u[i] == '{' {
      assert u[i..i + 2] == "{}";
    }
  }

  /** The constructor counts the parameters exactly when the template does not start with one. */
  lemma CountedIff(u: string)
    requires Braced(u)
    ensures Counted(u, 0) == Params(u, 0) <==> !(u != "" && u[0] == '{')
  {
    if u != "" {
      if u[0] == '{' {
        assert u[0..2] == "{}";
      } else {
        NotAt(u, "{}", 0, 0);
        CountedParams(u, 1);
      }
    }
  }

  // ---------------------------------------------------------------- the handler

  datatype HTTPMethod = HTTP_ANY | HTTP_VERB(code: nat)

  function Prepend(args: seq<string>, m: Match): Match {
    if m.NoMatch? then NoMatch else Args(args + m.args)
  }

  /** The loop stands at template position i and request position k, with `done` captured. */
  predicate Reached(u: string, req: string, i: nat, k: nat, done: seq<string>) {
    && k <= |req|
    && MatchFrom(u, 0, req, 0) == Prepend(done, MatchFrom(u, i, req, k))
    && Captured(u, 0, req, 0) == done + Captured(u, i, req, k)
  }

  lemma ReachedStart(u: string, req: string)
    ensures Reached(u, req, 0, 0, [])
  {}

  lemma ReachedChar(u: string, req: string, i: nat, k: nat, done: seq<string>)
    requires Reached(u, req, i, k, done) && i < |u| && k < |req| && u[i] == req[k]
    ensures Reached(u, req, i + 1, k + 1, done)
  {}

  lemma ReachedMiss(u: string, req: string, i: nat, k: nat, done: seq<string>)
    requires Reached(u, req, i, k, done) && i < |u| && (k < |req| ==> u[i] != req[k])
    requires u[i] == '{' ==> i + 2 < |u| && CharFrom(req, u[i + 2], k) < 0
    ensures MatchFrom(u, 0, req, 0) == NoMatch && Captured(u, 0, req, 0) == done
  {}

  lemma ReachedLast(u: string, req: string, i: nat, k: nat, done: seq<string>)
    requires Reached(u, req, i, k, done) && i < |u| <= i + 2 && (k < |req| ==> u[i] != req[k]) && u[i] == '{'
    ensures MatchFrom(u, 0, req, 0).Args? <==> '/' !in req[k..]
    ensures Captured(u, 0, req, 0) == done + [req[k..]]
  {}

  lemma ReachedParam(u: string, req: string, i: nat, k: nat, done: seq<string>, e: nat)
    requires Reached(u, req, i, k, done) && i + 2 < |u| && (k < |req| ==> u[i] != req[k]) && u[i] == '{'
    requires k <= e < |req| && CharFrom(req, u[i + 2], k) == e
    ensures Reached(u, req, i + 3, e + 1, done + [req[k..e]])
  {
    var arg := req[k..e];
    var m := MatchFrom(u, i + 3, req, e + 1);
    assert MatchFrom(u, i, req, k) == Cons(arg, m);
    PrependCons(done, arg, m);
    assert done + ([arg] + Captured(u, i + 3, req, e + 1)) == done + [arg] + Captured(u, i + 3, req, e + 1);
  }

  lemma PrependCons(done: seq<string>, arg: string, m: Match)
    ensures Prepend(done, Cons(arg, m)) == Prepend(done + [arg], m)
  {
    if m.Args? {
      assert done + ([arg] + m.args) == (done + [arg]) + m.args;
    }
  }

  lemma ReachedEnd(u: string, req: string, i: nat, k: nat, done: seq<string>)
    requires Reached(u, req, i, k, done) && i >= |u|
    ensures MatchFrom(u, 0, req, 0).Args? <==> k >= |req|
    ensures Captured(u, 0, req, 0) == done
  {}

  /** `done` has been written over the start of the old arguments. */
  function Over(done: seq<string>, old0: seq<string>): seq<string>
    requires |done| <= |old0|
  {
    done + old0[|done|..]
  }

  lemma OverStep(done: seq<string>, old0: seq<string>, arg: string)
    requires |done| < |old0|
    ensures Over(done, old0)[|done| := arg] == Over(done + [arg], old0)
  {}

  class FunctionRequestHandler {
    const uri: string
    const verb: HTTPMethod
    var pathArgs: seq<string>

    ghost predicate Valid()
      reads this
    {
      '\0' !in uri && Braced(uri) && |pathArgs| >= Params(uri, 0)
    }

    constructor (uri: string, verb: HTTPMethod)
      ensures this.uri == uri && this.verb == verb
      ensures |pathArgs| == Counted(uri, 0)
      ensures '\0' !in uri && Braced(uri) && (uri == "" || uri[0] != '{') ==> Valid()
    {
      this.uri, this.verb := uri, verb;
      var numParams: nat, start: int := 0, 0;
      start := IndexOf(uri, "{}", 0);
      if start > 0 {
        numParams, start := 1, start + 2;
      }
      while start > 0
        invariant start <= |uri|
        invariant Counted(uri, 0) == numParams + if start > 0 then Counted(uri, start) else 0
        decreases if start > 0 then |uri| - start + 1 else 0
      {
        start := IndexOf(uri, "{}", start);
        if start > 0 {
          numParams, start := numParams + 1, start + 2;
        }
      }
      pathArgs := seq(numParams, _ => "");
      new;
      if Braced(uri) {
        CountedIff(uri);
      }
    }

    method CanHandle(requestMethod: HTTPMethod, requestUri: string) returns (r: bool)
      requires Valid()
      modifies this
      ensures Valid()
      ensures r == ((verb == HTTP_ANY || verb == requestMethod) && PathTest(uri, requestUri))
      ensures |Captured(uri, 0, requestUri, 0)| <= |old(pathArgs)|
      ensures pathArgs ==
              if (verb == HTTP_ANY || verb == requestMethod) && uri != requestUri
              then Over(Captured(uri, 0, requestUri, 0), old(pathArgs)) else old(pathArgs)
    {
      CapturedCount(uri, 0, requestUri, 0);
      if verb != HTTP_ANY && verb != requestMethod {
        return false;
      }
      if uri == requestUri {
        return true;
      }
      var i: nat, requestUriIndex: nat, pathArgIndex: nat := 0, 0, 0;
      ghost var done: seq<string> := [];
      ReachedStart(uri, requestUri);
      while i < |uri|
        invariant Reached(uri, requestUri, i, requestUriIndex, done)
        invariant |done| == pathArgIndex && pathArgIndex + Params(uri, i) <= |old(pathArgs)|
        invariant pathArgs == Over(done, old(pathArgs))
      {
        var uriChar := uri[i];
        var requestUriChar := if requestUriIndex < |requestUri| then requestUri[requestUriIndex] else '\0';
        BracedParams(uri, i);
        if uriChar == requestUriChar {
          ReachedChar(uri, requestUri, i, requestUriIndex, done);
          i, requestUriIndex := i + 1, requestUriIndex + 1;
          continue;
        }
        if uriChar != '{' {
          ReachedMiss(uri, requestUri, i, requestUriIndex, done);
          return false;
        }
        if i + 2 >= |uri| {
          var arg := requestUri[requestUriIndex..];
          pathArgs := pathArgs[pathArgIndex := arg];
          ReachedLast(uri, requestUri, i, requestUriIndex, done);
          OverStep(done, old(pathArgs), arg);
          return '/' !in arg;
        }
        var uriIndex := CharFrom(requestUri, uri[i + 2], requestUriIndex);
        if uriIndex < 0 {
          ReachedMiss(uri, requestUri, i, requestUriIndex, done);
          return false;
        }
        var arg := requestUri[requestUriIndex..uriIndex];
        pathArgs := pathArgs[pathArgIndex := arg];
        ReachedParam(uri, requestUri, i, requestUriIndex, done, uriIndex);
        OverStep(done, old(pathArgs), arg);
        done := done + [arg];
        pathArgIndex := pathArgIndex + 1;
        i, requestUriIndex := i + 3, uriIndex + 1;
      }
      ReachedEnd(uri, requestUri, i, requestUriIndex, done);
      return requestUriIndex >= |requestUri|;
    }
  }

  /** No write goes past the parameters there are. */
  lemma {:induction false} CapturedCount(u: string, i: nat, req: string, k: nat)
    requires Braced(u) && k <= |req|
    ensures |Captured(u, i, req, k)| <= Params(u, i)
    decreases |u| - i
  {
    if i < |u| {
      BracedParams(u, i);
      if k < |req| && u[i] == req[k] {
        CapturedCount(u, i + 1, req, k + 1);
      } else if i + 2 < |u| && u[i] == '{' && CharFrom(req, u[i + 2], k) >= 0 {
        CapturedCount(u, i + 3, req, CharFrom(req, u[i + 2], k) + 1);
      }
    }
  }
}
