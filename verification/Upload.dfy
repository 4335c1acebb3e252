/** The file part of a multipart form (Parsing.cpp): a delimiter scanner with one byte of retained
    look-ahead in front of a fixed-size buffer that is flushed when it is full. */
module Upload {
  import opened Words

  const CR: Byte := 13
  const LF: Byte := 10
  const DASH: Byte := 45
  const DELIM: seq<Byte> := [CR, LF, DASH, DASH]

  // ---------------------------------------------------------------- what the scanner computes

  /** The bytes written for the file and, when its end was found, where the stream stands. */
  datatype Scanned = Done(file: seq<Byte>, next: nat) | Aborted(file: seq<Byte>)

  function Put(bs: seq<Byte>, r: Scanned): Scanned {
    r.(file := bs + r.file)
  }

  /** readBytes from position i into a buffer of n bytes that held `stale` before. */
  function EndBuf(s: seq<Byte>, i: nat, n: nat, stale: seq<Byte>): (r: seq<Byte>)
    requires |stale| == n && i <= |s|
    ensures |r| == n
  {
    if i + n <= |s| then s[i..i + n] else s[i..] + stale[|s| - i..]
  }

  /** The automaton from the label `readfile` on, with position i of the stream still to be looked at. */
  function Scan(s: seq<Byte>, i: nat, boundary: seq<Byte>, stale: seq<Byte>): Scanned
    requires |stale| == |boundary|
    decreases |s| - i
  {
    if i >= |s| then Aborted([])
    else if s[i] != CR then Put([s[i]], Scan(s, i + 1, boundary, stale))
    else if i + 1 == |s| then Aborted([])
    else if s[i + 1] != LF then Put([CR], Scan(s, i + 1, boundary, stale))
    else if i + 2 == |s| then Aborted([])
    else if s[i + 2] != DASH then Put([CR, LF], Scan(s, i + 2, boundary, stale))
    else if i + 3 == |s| then Aborted([])
    else if s[i + 3] != DASH then Put([CR, LF, DASH], Scan(s, i + 3, boundary, stale))
    else
      var endBuf := EndBuf(s, i + 4, |boundary|, stale);
      var after := i + 4 + |boundary|;
      if endBuf == boundary then Done([], if after <= |s| then after else |s|)
      else Put(DELIM + endBuf, Scan(s, after, boundary, stale))
  }

  predicate DelimAt(s: seq<Byte>, i: nat) {
    i + 4 <= |s| && s[i] == CR && s[i + 1] == LF && s[i + 2] == DASH && s[i + 3] == DASH
  }

  lemma DelimSlice(s: seq<Byte>, i: nat)
    requires DelimAt(s, i)
    ensures s[i..i + 4] == DELIM
  {}

  // ---------------------------------------------------------------- nothing is lost or invented

  /** The boundary stands at i, or the end of the stream cuts it off and the bytes left over in the
      buffer happen to complete it. */
  predicate BoundaryAt(s: seq<Byte>, i: nat, boundary: seq<Byte>, stale: seq<Byte>)
    requires |stale| == |boundary|
  {
    i <= |s| && EndBuf(s, i, |boundary|, stale) == boundary
  }

  lemma JoinSlices(s: seq<Byte>, i: nat, j: nat, p: nat)
    requires i <= j <= p <= |s|
    ensures s[i..j] + s[j..p] == s[i..p]
  {}

  /** The scan from i has written s[i..p] and stopped behind the delimiter and boundary at p. */
  predicate EndsAt(r: Scanned, s: seq<Byte>, i: nat, p: nat, boundary: seq<Byte>, stale: seq<Byte>)
    requires |stale| == |boundary|
  {
    var after := p + 4 + |boundary|;
    i <= p && DelimAt(s, p) && BoundaryAt(s, p + 4, boundary, stale)
    && r == Done(s[i..p], if after <= |s| then after else |s|)
  }

  lemma EndsHere(s: seq<Byte>, i: nat, boundary: seq<Byte>, stale: seq<Byte>)
    requires |stale| == |boundary| && DelimAt(s, i) && BoundaryAt(s, i + 4, boundary, stale)
    ensures EndsAt(Scan(s, i, boundary, stale), s, i, i, boundary, stale)
  {}

  lemma EndsLater(r: Scanned, s: seq<Byte>, i: nat, j: nat, p: nat, boundary: seq<Byte>, stale: seq<Byte>)
    requires |stale| == |boundary| && i <= j <= |s| && EndsAt(r, s, j, p, boundary, stale)
    ensures EndsAt(Put(s[i..j], r), s, i, p, boundary, stale)
  {
    PutSlices(s, i, j, p, r);
  }

  /** A completed scan has written exactly the bytes before some delimiter with its boundary, and the
      stream stands right behind it. */
  lemma {:induction false} Conserved(s: seq<Byte>, i: nat, boundary: seq<Byte>, stale: seq<Byte>) returns (p: nat)
    requires |stale| == |boundary| && i <= |s| && Scan(s, i, boundary, stale).Done?
    ensures EndsAt(Scan(s, i, boundary, stale), s, i, p, boundary, stale)
    decreases |s| - i
  {
    if DelimAt(s, i) && BoundaryAt(s, i + 4, boundary, stale) {
      p := i;
      EndsHere(s, i, boundary, stale);
    } else {
      var j := i + StepLength(s, i, boundary);
      TakeStep(s, i, boundary, stale, j);
      p := Conserved(s, j, boundary, stale);
      EndsLater(Scan(s, j, boundary, stale), s, i, j, p, boundary, stale);
    }
  }

  lemma PutSlices(s: seq<Byte>, i: nat, j: nat, p: nat, r: Scanned)
    requires i <= j <= p <= |s| && r.file == s[j..p]
    ensures Put(s[i..j], r) == r.(file := s[i..p])
  {
    JoinSlices(s, i, j, p);
  }

  /** How far the automaton moves before it starts anew. */
  function StepLength(s: seq<Byte>, i: nat, boundary: seq<Byte>): nat
    requires i < |s|
  {
    if s[i] != CR || i + 1 == |s| || s[i + 1] != LF then 1
    else if i + 2 == |s| || s[i + 2] != DASH then 2
    else if i + 3 == |s| || s[i + 3] != DASH then 3
    else 4 + |boundary|
  }

  lemma TakeStep(s: seq<Byte>, i: nat, boundary: seq<Byte>, stale: seq<Byte>, j: nat)
    requires |stale| == |boundary| && i < |s| && Scan(s, i, boundary, stale).Done?
    requires !(DelimAt(s, i) && BoundaryAt(s, i + 4, boundary, stale)) && j == i + StepLength(s, i, boundary)
    ensures j <= |s| && Scan(s, i, boundary, stale) == Put(s[i..j], Scan(s, j, boundary, stale))
  {
    if DelimAt(s, i) {
      TakeFalseStart(s, i, boundary, stale, j);
    }
  }

  lemma TakeFalseStart(s: seq<Byte>, i: nat, boundary: seq<Byte>, stale: seq<Byte>, j: nat)
    requires |stale| == |boundary| && DelimAt(s, i) && !BoundaryAt(s, i + 4, boundary, stale)
    requires Scan(s, i, boundary, stale).Done? && j == i + 4 + |boundary|
    ensures j <= |s| && Scan(s, i, boundary, stale) == Put(s[i..j], Scan(s, j, boundary, stale))
  {
    if j <= |s| {
      DelimSlice(s, i);
      JoinSlices(s, i, i + 4, j);
    }
  }

  // ---------------------------------------------------------------- an interrupted upload

  /** The scan from i has written s[i..p] and broken off in the delimiter that seems to begin at p. */
  predicate BreaksAt(r: Scanned, s: seq<Byte>, i: nat, p: nat) {
    i <= p <= |s| && |s| - p < 4 && s[p..] == DELIM[..|s| - p] && r == Aborted(s[i..p])
  }

  /** The scan from i has written all of the stream and what was left over in the buffer after the part of a
      boundary behind the delimiter at p. */
  predicate OverrunsAt(r: Scanned, s: seq<Byte>, i: nat, p: nat, boundary: seq<Byte>, stale: seq<Byte>)
    requires |stale| == |boundary|
  {
    i <= p && DelimAt(s, p) && p + 4 + |boundary| > |s| && r == Aborted(s[i..] + stale[|s| - p - 4..])
  }

  /** A scan that does not complete has written all of the stream but the beginning of a delimiter at its
      end, or all of it and some bytes that were never sent. */
  lemma {:induction false} Interrupted(s: seq<Byte>, i: nat, boundary: seq<Byte>, stale: seq<Byte>) returns (p: nat)
    requires |stale| == |boundary| && i <= |s| && Scan(s, i, boundary, stale).Aborted?
    ensures var r := Scan(s, i, boundary, stale); BreaksAt(r, s, i, p) || OverrunsAt(r, s, i, p, boundary, stale)
    decreases |s| - i
  {
    if |s| - i < 4 && s[i..] == DELIM[..|s| - i] {
      p := i;
      BreaksHere(s, i, boundary, stale);
    } else if DelimAt(s, i) && i + 4 + |boundary| > |s| {
      p := i;
      OverrunsHere(s, i, boundary, stale);
    } else {
      var j := i + StepLength(s, i, boundary);
      GoesOn(s, i, boundary, stale, j);
      p := Interrupted(s, j, boundary, stale);
      BreaksLater(s, i, j, p, boundary, stale, Scan(s, i, boundary, stale), Scan(s, j, boundary, stale));
    }
  }

  lemma BreaksHere(s: seq<Byte>, i: nat, boundary: seq<Byte>, stale: seq<Byte>)
    requires |stale| == |boundary| && i <= |s| && |s| - i < 4 && s[i..] == DELIM[..|s| - i]
    ensures BreaksAt(Scan(s, i, boundary, stale), s, i, i)
  {
    var n := |s| - i;
    assert forall k | 0 <= k < n :: s[i + k] == s[i..][k] == DELIM[k];
    assert s[i..i] == [];
  }

  lemma OverrunsHere(s: seq<Byte>, i: nat, boundary: seq<Byte>, stale: seq<Byte>)
    requires |stale| == |boundary| && DelimAt(s, i) && i + 4 + |boundary| > |s|
    requires Scan(s, i, boundary, stale).Aborted?
    ensures OverrunsAt(Scan(s, i, boundary, stale), s, i, i, boundary, stale)
  {
    var left := stale[|s| - i - 4..];
    OverrunScan(s, i, boundary, stale, s[i + 4..] + left);
    DelimSlice(s, i);
    WithDelim(s, i, left);
  }

  lemma OverrunScan(s: seq<Byte>, i: nat, boundary: seq<Byte>, stale: seq<Byte>, endBuf: seq<Byte>)
    requires |stale| == |boundary| && DelimAt(s, i) && i + 4 + |boundary| > |s|
    requires Scan(s, i, boundary, stale).Aborted? && endBuf == EndBuf(s, i + 4, |boundary|, stale)
    ensures Scan(s, i, boundary, stale) == Aborted(DELIM + endBuf)
  {
    assert DELIM + endBuf + [] == DELIM + endBuf;
  }

  lemma WithDelim(s: seq<Byte>, i: nat, left: seq<Byte>)
    requires DelimAt(s, i) && s[i..i + 4] == DELIM
    ensures DELIM + (s[i + 4..] + left) == s[i..] + left
  {
    assert s[i..] == s[i..i + 4] + s[i + 4..];
  }

  lemma GoesOn(s: seq<Byte>, i: nat, boundary: seq<Byte>, stale: seq<Byte>, j: nat)
    requires |stale| == |boundary| && i < |s| && Scan(s, i, boundary, stale).Aborted?
    requires |s| - i < 4 ==> s[i..] != DELIM[..|s| - i]
    requires DelimAt(s, i) ==> i + 4 + |boundary| <= |s|
    requires j == i + StepLength(s, i, boundary)
    ensures j <= |s| && Scan(s, i, boundary, stale) == Put(s[i..j], Scan(s, j, boundary, stale))
  {
    if DelimAt(s, i) {
      DelimSlice(s, i);
      JoinSlices(s, i, i + 4, j);
    } else {
      PartialStep(s, i, boundary, stale, j);
    }
  }

  lemma PartialStep(s: seq<Byte>, i: nat, boundary: seq<Byte>, stale: seq<Byte>, j: nat)
    requires |stale| == |boundary| && i < |s| && !DelimAt(s, i)
    requires |s| - i < 4 ==> s[i..] != DELIM[..|s| - i]
    requires j == i + StepLength(s, i, boundary)
    ensures j <= |s| && Scan(s, i, boundary, stale) == Put(s[i..j], Scan(s, j, boundary, stale))
  {
    NotPartial(s, i);
    if s[i] != CR {
      PlainBranch(s, i, j, boundary, stale);
    } else if s[i + 1] != LF {
      CrBranch(s, i, j, boundary, stale);
    } else if s[i + 2] != DASH {
      LfBranch(s, i, j, boundary, stale);
    } else {
      DashBranch(s, i, j, boundary, stale);
    }
    StartOfDelim(s, i, j);
  }

  /** A stream that does not end in the beginning of a delimiter goes on after it. */
  lemma NotPartial(s: seq<Byte>, i: nat)
    requires i < |s| && (|s| - i < 4 ==> s[i..] != DELIM[..|s| - i])
    ensures s[i] == CR ==> i + 1 < |s|
    ensures s[i] == CR && s[i + 1] == LF ==> i + 2 < |s|
    ensures s[i] == CR && s[i + 1] == LF && s[i + 2] == DASH ==> i + 3 < |s|
  {
    if |s| - i < 4 {
      PartialIff(s, i);
    }
  }

  lemma CrBranch(s: seq<Byte>, i: nat, j: nat, boundary: seq<Byte>, stale: seq<Byte>)
    requires |stale| == |boundary| && j == i + 1 < |s| && s[i] == CR && s[j] != LF
    ensures Scan(s, i, boundary, stale) == Put([CR], Scan(s, j, boundary, stale))
  {}

  lemma StartOfDelim(s: seq<Byte>, i: nat, j: nat)
    requires i <= j <= |s|
    ensures j == i + 1 ==> s[i..j] == [s[i]]
    ensures j == i + 2 ==> s[i..j] == [s[i], s[i + 1]]
    ensures j == i + 3 ==> s[i..j] == [s[i], s[i + 1], s[i + 2]]
  {}

  lemma PartialIff(s: seq<Byte>, i: nat)
    requires i <= |s| && |s| - i < 4
    ensures s[i..] == DELIM[..|s| - i] <==> forall k | 0 <= k < |s| - i :: s[i + k] == DELIM[k]
  {
    var t, d := s[i..], DELIM[..|s| - i];
    assert forall k | 0 <= k < |s| - i :: t[k] == s[i + k] && d[k] == DELIM[k];
  }

  lemma BreaksLater(s: seq<Byte>, i: nat, j: nat, p: nat, boundary: seq<Byte>, stale: seq<Byte>, r0: Scanned, r1: Scanned)
    requires |stale| == |boundary| && i <= j <= |s| && r0 == Put(s[i..j], r1)
    requires BreaksAt(r1, s, j, p) || OverrunsAt(r1, s, j, p, boundary, stale)
    ensures BreaksAt(r0, s, i, p) || OverrunsAt(r0, s, i, p, boundary, stale)
  {
    if BreaksAt(r1, s, j, p) {
      JoinSlices(s, i, j, p);
    } else {
      WithLeft(s, i, j, stale[|s| - p - 4..]);
    }
  }

  lemma WithLeft(s: seq<Byte>, i: nat, j: nat, left: seq<Byte>)
    requires i <= j <= |s|
    ensures s[i..j] + (s[j..] + left) == s[i..] + left
  {
    assert s[i..] == s[i..j] + s[j..];
  }

  // ---------------------------------------------------------------- which files survive

  /** Every delimiter start the scanner stops at is followed, inside the file, by something as long as
      the boundary that is not the boundary. */
  predicate Clean(f: seq<Byte>, i: nat, boundary: seq<Byte>)
    decreases |f| - i
  {
    if i >= |f| then true
    else if DelimAt(f, i) then
      var after := i + 4 + |boundary|;
      after <= |f| && f[i + 4..after] != boundary && Clean(f, after, boundary)
    else Clean(f, i + 1, boundary)
  }

  lemma PutPut(x: seq<Byte>, y: seq<Byte>, r: Scanned)
    ensures Put(x, Put(y, r)) == Put(x + y, r)
  {
    assert x + (y + r.file) == x + y + r.file;
  }

  /** Short of a whole delimiter start, scanning is byte by byte. */
  lemma OneStep(s: seq<Byte>, i: nat, boundary: seq<Byte>, stale: seq<Byte>)
    requires |stale| == |boundary| && i + 4 <= |s| && !DelimAt(s, i)
    ensures Scan(s, i, boundary, stale) == Put([s[i]], Scan(s, i + 1, boundary, stale))
  {
    if s[i] == CR && s[i + 1] == LF {
      if s[i + 2] != DASH {
        LfStep(s, i, boundary, stale, i + 1, i + 2);
      } else {
        DashStep(s, i, boundary, stale, i + 1, i + 2, i + 3);
      }
    }
  }

  lemma PlainBranch(s: seq<Byte>, i: nat, j: nat, boundary: seq<Byte>, stale: seq<Byte>)
    requires |stale| == |boundary| && i < |s| && j == i + 1 && s[i] != CR
    ensures Scan(s, i, boundary, stale) == Put([s[i]], Scan(s, j, boundary, stale))
  {}

  lemma LfBranch(s: seq<Byte>, i: nat, j: nat, boundary: seq<Byte>, stale: seq<Byte>)
    requires |stale| == |boundary| && j == i + 2 < |s| && s[i] == CR && s[i + 1] == LF && s[j] != DASH
    ensures Scan(s, i, boundary, stale) == Put([CR, LF], Scan(s, j, boundary, stale))
  {}

  lemma LfStep(s: seq<Byte>, i: nat, boundary: seq<Byte>, stale: seq<Byte>, i1: nat, i2: nat)
    requires |stale| == |boundary| && i1 == i + 1 && i2 == i + 2 < |s| && s[i] == CR && s[i1] == LF && s[i2] != DASH
    ensures Scan(s, i, boundary, stale) == Put([CR], Scan(s, i1, boundary, stale))
  {
    var r := Scan(s, i2, boundary, stale);
    LfBranch(s, i, i2, boundary, stale);
    PlainBranch(s, i1, i2, boundary, stale);
    PutPut([CR], [LF], r);
  }

  lemma DashBranch(s: seq<Byte>, i: nat, j: nat, boundary: seq<Byte>, stale: seq<Byte>)
    requires |stale| == |boundary| && j == i + 3 < |s|
    requires s[i] == CR && s[i + 1] == LF && s[i + 2] == DASH && s[j] != DASH
    ensures Scan(s, i, boundary, stale) == Put([CR, LF, DASH], Scan(s, j, boundary, stale))
  {}

  lemma DashCompose(r0: Scanned, r1: Scanned, r2: Scanned, r3: Scanned)
    requires r0 == Put([CR, LF, DASH], r3) && r1 == Put([LF], r2) && r2 == Put([DASH], r3)
    ensures r0 == Put([CR], r1)
  {
    PutPut([LF], [DASH], r3);
    PutPut([CR], [LF, DASH], r3);
  }

  lemma DashStep(s: seq<Byte>, i: nat, boundary: seq<Byte>, stale: seq<Byte>, i1: nat, i2: nat, i3: nat)
    requires |stale| == |boundary| && i1 == i + 1 && i2 == i + 2 && i3 == i + 3 < |s|
    requires s[i] == CR && s[i1] == LF && s[i2] == DASH && s[i3] != DASH
    ensures Scan(s, i, boundary, stale) == Put([CR], Scan(s, i1, boundary, stale))
  {
    DashBranch(s, i, i3, boundary, stale);
    PlainBranch(s, i1, i2, boundary, stale);
    PlainBranch(s, i2, i3, boundary, stale);
    DashCompose(Scan(s, i, boundary, stale), Scan(s, i1, boundary, stale), Scan(s, i2, boundary, stale),
                Scan(s, i3, boundary, stale));
  }

  /** The stream of a file: its bytes, the delimiter and the boundary. */
  predicate Delivers(s: seq<Byte>, f: seq<Byte>, boundary: seq<Byte>) {
    |s| >= |f| + 4 + |boundary| && s[..|f|] == f && DelimAt(s, |f|) && s[|f| + 4..|f| + 4 + |boundary|] == boundary
  }

  /** The delimiter after the file cannot seem to begin inside the file. */
  lemma NoStraddle(s: seq<Byte>, f: seq<Byte>, boundary: seq<Byte>, i: nat)
    requires Delivers(s, f, boundary) && i < |f|
    ensures DelimAt(s, i) <==> DelimAt(f, i)
  {
    assert forall j | 0 <= j < |f| :: s[j] == s[..|f|][j];
  }

  lemma PutDone(x: seq<Byte>, r: Scanned, f: seq<Byte>, i: nat, next: nat)
    requires i + |x| <= |f| && x == f[i..i + |x|]
    ensures Put(x, r) == Done(f[i..], next) <==> r == Done(f[i + |x|..], next)
  {
    assert f[i..] == x + f[i + |x|..];
    assert (x + r.file)[|x|..] == r.file;
  }

  lemma DelimStep(s: seq<Byte>, i: nat, boundary: seq<Byte>, stale: seq<Byte>, after: nat)
    requires |stale| == |boundary| && DelimAt(s, i) && after == i + 4 + |boundary| <= |s|
    ensures Scan(s, i, boundary, stale)
            == if s[i + 4..after] == boundary then Done([], after) else Put(DELIM + s[i + 4..after], Scan(s, after, boundary, stale))
  {}

  /** The result of delivering the rest of a file unchanged and stopping right after its boundary. */
  function Delivered(f: seq<Byte>, i: nat, boundary: seq<Byte>): Scanned
    requires i <= |f|
  {
    Done(f[i..], |f| + 4 + |boundary|)
  }

  lemma DeliveredAtEnd(s: seq<Byte>, f: seq<Byte>, boundary: seq<Byte>, stale: seq<Byte>)
    requires |stale| == |boundary| && Delivers(s, f, boundary)
    ensures Scan(s, |f|, boundary, stale) == Delivered(f, |f|, boundary)
  {
    DelimStep(s, |f|, boundary, stale, |f| + 4 + |boundary|);
  }

  lemma DeliveredByte(s: seq<Byte>, f: seq<Byte>, i: nat, boundary: seq<Byte>, stale: seq<Byte>)
    requires |stale| == |boundary| && Delivers(s, f, boundary) && i < |f| && !DelimAt(f, i)
    ensures Scan(s, i, boundary, stale) == Delivered(f, i, boundary)
            <==> Scan(s, i + 1, boundary, stale) == Delivered(f, i + 1, boundary)
  {
    NoStraddle(s, f, boundary, i);
    OneStep(s, i, boundary, stale);
    assert s[i] == s[..|f|][i];
    PutDone([s[i]], Scan(s, i + 1, boundary, stale), f, i, |f| + 4 + |boundary|);
  }

  lemma DeliveredSkip(s: seq<Byte>, f: seq<Byte>, i: nat, boundary: seq<Byte>, stale: seq<Byte>, after: nat)
    requires |stale| == |boundary| && Delivers(s, f, boundary) && i < |f| && DelimAt(f, i)
    requires after == i + 4 + |boundary| <= |f|
    ensures Scan(s, i, boundary, stale) == Delivered(f, i, boundary)
            <==> f[i + 4..after] != boundary && Scan(s, after, boundary, stale) == Delivered(f, after, boundary)
  {
    NoStraddle(s, f, boundary, i);
    DelimStep(s, i, boundary, stale, after);
    WithinFile(s, f, i, after);
    PutDone(f[i..after], Scan(s, after, boundary, stale), f, i, |f| + 4 + |boundary|);
  }

  lemma NotDelivered(s: seq<Byte>, f: seq<Byte>, i: nat, boundary: seq<Byte>, stale: seq<Byte>, after: nat)
    requires |stale| == |boundary| && Delivers(s, f, boundary) && i < |f| && DelimAt(f, i)
    requires after == i + 4 + |boundary| > |f|
    ensures Scan(s, i, boundary, stale) != Delivered(f, i, boundary)
  {
    NoStraddle(s, f, boundary, i);
    DelimStep(s, i, boundary, stale, after);
  }

  /** From position i of the file on: what is left is delivered unchanged, and the scan stops right after
      its boundary, if and only if what is left is clean. */
  lemma {:induction false} RoundTripFrom(s: seq<Byte>, f: seq<Byte>, i: nat, boundary: seq<Byte>, stale: seq<Byte>)
    requires |stale| == |boundary| && Delivers(s, f, boundary) && i <= |f|
    ensures Scan(s, i, boundary, stale) == Delivered(f, i, boundary) <==> Clean(f, i, boundary)
    decreases |f| - i
  {
    if i == |f| {
      DeliveredAtEnd(s, f, boundary, stale);
    } else if DelimAt(f, i) {
      var after := i + 4 + |boundary|;
      if after <= |f| {
        DeliveredSkip(s, f, i, boundary, stale, after);
        RoundTripFrom(s, f, after, boundary, stale);
      } else {
        NotDelivered(s, f, i, boundary, stale, after);
      }
    } else {
      DeliveredByte(s, f, i, boundary, stale);
      RoundTripFrom(s, f, i + 1, boundary, stale);
    }
  }

  lemma WithinFile(s: seq<Byte>, f: seq<Byte>, i: nat, after: nat)
    requires |f| <= |s| && s[..|f|] == f && DelimAt(f, i) && i + 4 <= after <= |f|
    ensures s[i + 4..after] == f[i + 4..after] && DELIM + s[i + 4..after] == f[i..after]
  {
    assert s[..|f|][i + 4..after] == s[i + 4..after];
    DelimSlice(f, i);
    JoinSlices(f, i, i + 4, after);
  }

  /** The round trip: a file followed by its delimiter and boundary is delivered unchanged, and the scan
      stops exactly there, if and only if the file is clean. */
  lemma RoundTripIff(f: seq<Byte>, boundary: seq<Byte>, stale: seq<Byte>, tail: seq<Byte>)
    requires |stale| == |boundary|
    ensures Scan(f + DELIM + boundary + tail, 0, boundary, stale) == Done(f, |f| + 4 + |boundary|)
            <==> Clean(f, 0, boundary)
  {
    var s := f + DELIM + boundary + tail;
    assert Delivers(s, f, boundary);
    RoundTripFrom(s, f, 0, boundary, stale);
    assert f[0..] == f;
  }

  predicate SafeAt(f: seq<Byte>, boundary: seq<Byte>, i: nat) {
    DelimAt(f, i) ==> i + 4 + |boundary| <= |f| && f[i + 4..i + 4 + |boundary|] != boundary
  }

  /** No `CRLF--` of the file is cut short by its end or followed by the boundary. */
  predicate SafeEverywhere(f: seq<Byte>, boundary: seq<Byte>) {
    forall i | 0 <= i < |f| :: SafeAt(f, boundary, i)
  }

  lemma {:induction false} SafeIsClean(f: seq<Byte>, i: nat, boundary: seq<Byte>)
    requires SafeEverywhere(f, boundary)
    ensures Clean(f, i, boundary)
    decreases |f| - i
  {
    if i < |f| {
      assert SafeAt(f, boundary, i);
      SafeIsClean(f, if DelimAt(f, i) then i + 4 + |boundary| else i + 1, boundary);
    }
  }

  /** The round trip of every file in which no delimiter start is cut short or followed by the boundary. */
  lemma RoundTrip(f: seq<Byte>, boundary: seq<Byte>, stale: seq<Byte>, tail: seq<Byte>)
    requires |stale| == |boundary| && SafeEverywhere(f, boundary)
    ensures Scan(f + DELIM + boundary + tail, 0, boundary, stale) == Done(f, |f| + 4 + |boundary|)
  {
    SafeIsClean(f, 0, boundary);
    RoundTripIff(f, boundary, stale, tail);
  }

  predicate OccursAt(t: seq<Byte>, f: seq<Byte>, i: nat) {
    i + |t| <= |f| && f[i..i + |t|] == t
  }

  /** A file is only promised not to contain the delimiter with the boundary; that is not enough. */
  lemma LawfulFileLost(boundary: seq<Byte>, stale: seq<Byte>, tail: seq<Byte>)
    requires boundary != [] && |stale| == |boundary|
    ensures forall i: nat :: !OccursAt(DELIM + boundary, DELIM, i)
    ensures Scan(DELIM + DELIM + boundary + tail, 0, boundary, stale) != Done(DELIM, 8 + |boundary|)
  {
    assert DelimAt(DELIM, 0) && !Clean(DELIM, 0, boundary);
    RoundTripIff(DELIM, boundary, stale, tail);
  }
}
