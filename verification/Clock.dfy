/** The device's own clock: seconds kept from a 32-bit millisecond counter that wraps (WSKey32.ino). */
module Clock {
  import opened Words

  /** The seconds, the counter at the last update, and the milliseconds not yet counted. */
  datatype State = State(localUnixtime: int, unxMs: UInt32, unxSumm: UInt32)

  function Refresh(unixtime: int, now: UInt32): State {
    State(unixtime, now, 0)
  }

  /** An update reads the counter twice: once to add what has passed, and once more to remember it. */
  function Update(s: State, now: UInt32, again: UInt32): State {
    var summ := U32(s.unxSumm + U32(now - s.unxMs));
    State(s.localUnixtime + summ / 1000, again, U32(summ - summ / 1000 * 1000))
  }

  /** The counter d milliseconds later. */
  function Later(now: UInt32, d: nat): UInt32 {
    U32(now + d)
  }

  /** The milliseconds since the counter was last remembered, and those between the two readings. */
  datatype Gap = Gap(since: nat, between: nat)

  function Updated(s: State, g: Gap): State {
    Update(s, Later(s.unxMs, g.since), Later(s.unxMs, g.since + g.between))
  }

  function RunOf(s: State, gs: seq<Gap>): State {
    if gs == [] then s else Updated(RunOf(s, gs[..|gs| - 1]), gs[|gs| - 1])
  }

  /** All the time that has passed. */
  function Total(gs: seq<Gap>): nat {
    if gs == [] then 0 else Total(gs[..|gs| - 1]) + gs[|gs| - 1].since + gs[|gs| - 1].between
  }

  /** The time between the two readings of each update. */
  function Between(gs: seq<Gap>): nat {
    if gs == [] then 0 else Between(gs[..|gs| - 1]) + gs[|gs| - 1].between
  }

  /** The counter difference is the time that passed, across a wrap too, if that is under 2^32 ms. */
  lemma Elapsed(m: UInt32, d: nat)
    requires d < UINT32
    ensures U32(Later(m, d) - m) == d
  {
    if m + d >= UINT32 {
      assert Later(m, d) == m + d - UINT32;
    }
  }

  /** The guard of an exact update: the uncounted milliseconds and the new ones fit 32 bits together. */
  predicate Fits(s: State, d: nat) {
    s.unxSumm + d < UINT32
  }

  lemma SumIs(summ: UInt32, d: nat)
    requires d < UINT32 && summ < 1000
    ensures U32(summ + d) == summ + d - if summ + d < UINT32 then 0 else UINT32
  {}

  lemma SplitSum(summ: UInt32)
    ensures 0 <= summ - summ / 1000 * 1000 < 1000
    ensures U32(summ - summ / 1000 * 1000) == summ - summ / 1000 * 1000
  {}

  lemma UpdateIs(s: State, g: Gap)
    requires g.since < UINT32 && s.unxSumm < 1000
    ensures var t := Updated(s, g);
            t.unxSumm < 1000 && t.unxMs == Later(s.unxMs, g.since + g.between)
            && t.localUnixtime * 1000 + t.unxSumm
               == s.localUnixtime * 1000 + s.unxSumm + g.since - if Fits(s, g.since) then 0 else UINT32
  {
    Elapsed(s.unxMs, g.since);
    SumIs(s.unxSumm, g.since);
    SplitSum(U32(s.unxSumm + g.since));
  }

  /** How many updates of a run do not fit. */
  function Lost(s: State, gs: seq<Gap>): nat {
    if gs == [] then 0
    else
      var before := gs[..|gs| - 1];
      Lost(s, before) + if Fits(RunOf(s, before), gs[|gs| - 1].since) then 0 else 1
  }

  predicate Spaced(gs: seq<Gap>) {
    forall i | 0 <= i < |gs| :: gs[i].since < UINT32
  }

  /** What a clock owes after a run: the time between double readings, and 2^32 ms for each update that
      did not fit. */
  function Owed(s: State, gs: seq<Gap>): nat {
    Between(gs) + Lost(s, gs) * UINT32
  }

  /** What the clock shows and holds back is all the time since the refresh, short of what it owes. */
  predicate Accounts(unixtime: int, s: State, t: State, gs: seq<Gap>) {
    t.unxSumm < 1000 && t.localUnixtime * 1000 + t.unxSumm == unixtime * 1000 + Total(gs) - Owed(s, gs)
  }

  lemma AccountsNext(unixtime: int, s: State, gs: seq<Gap>, g: Gap)
    requires g.since < UINT32 && Accounts(unixtime, s, RunOf(s, gs), gs)
    ensures Accounts(unixtime, s, RunOf(s, gs + [g]), gs + [g])
  {
    assert (gs + [g])[..|gs|] == gs;
    UpdateIs(RunOf(s, gs), g);
  }

  lemma {:induction false} Accounted(unixtime: int, now: UInt32, gs: seq<Gap>)
    requires Spaced(gs)
    ensures var s := Refresh(unixtime, now); Accounts(unixtime, s, RunOf(s, gs), gs)
  {
    if gs != [] {
      var before, g := gs[..|gs| - 1], gs[|gs| - 1];
      Accounted(unixtime, now, before);
      AccountsNext(unixtime, Refresh(unixtime, now), before, g);
      assert gs == before + [g];
    }
  }

  lemma Divide(a: int, r: int, n: int)
    requires 0 <= r < 1000
    ensures n / 1000 == a && n % 1000 == r <==> a * 1000 + r == n
  {}

  /** At each update the milliseconds since the last whole second and the new ones fit 32 bits together. */
  predicate AllFit(gs: seq<Gap>) {
    forall i | 0 <= i < |gs| :: Total(gs[..i]) % 1000 + gs[i].since < UINT32
  }

  lemma AllFitNext(before: seq<Gap>, g: Gap)
    ensures AllFit(before + [g]) <==> AllFit(before) && Total(before) % 1000 + g.since < UINT32
  {
    var gs := before + [g];
    assert gs[..|before|] == before;
    forall i | 0 <= i < |before| ensures gs[..i] == before[..i] && gs[i] == before[i] {}
  }

  /** Without time between readings, nothing is lost exactly when all updates fit. */
  lemma {:induction false} LostIff(unixtime: int, now: UInt32, gs: seq<Gap>)
    requires Spaced(gs) && Between(gs) == 0
    ensures Lost(Refresh(unixtime, now), gs) == 0 <==> AllFit(gs)
  {
    if gs != [] {
      var s, before, g := Refresh(unixtime, now), gs[..|gs| - 1], gs[|gs| - 1];
      LostIff(unixtime, now, before);
      AllFitNext(before, g);
      assert gs == before + [g];
      Accounted(unixtime, now, before);
      if Lost(s, before) == 0 {
        Divide(RunOf(s, before).localUnixtime - unixtime, RunOf(s, before).unxSumm, Total(before));
      }
    }
  }

  /** The clock is exact, to the second and to the held-back millisecond, exactly when every update fits
      and no millisecond passes between two readings. */
  lemma ExactIff(unixtime: int, now: UInt32, gs: seq<Gap>)
    requires Spaced(gs)
    ensures var t := RunOf(Refresh(unixtime, now), gs);
            AllFit(gs) && Between(gs) == 0
            <==> t.localUnixtime == unixtime + Total(gs) / 1000 && t.unxSumm == Total(gs) % 1000
  {
    var s := Refresh(unixtime, now);
    var t := RunOf(s, gs);
    Accounted(unixtime, now, gs);
    Divide(t.localUnixtime - unixtime, t.unxSumm, Total(gs));
    if Between(gs) == 0 {
      LostIff(unixtime, now, gs);
    }
  }

  // ---------------------------------------------------------------- in terms of the counter's readings

  /** When an update reads the counter, in milliseconds since the counter last stood at 0. */
  datatype Readings = Readings(first: nat, second: nat)

  /** A refresh at one time and updates at others: only the counter is seen, which wraps. */
  function ClockAt(unixtime: int, start: nat, rs: seq<Readings>): State {
    if rs == [] then Refresh(unixtime, U32(start))
    else
      var r := rs[|rs| - 1];
      Update(ClockAt(unixtime, start, rs[..|rs| - 1]), U32(r.first), U32(r.second))
  }

  /** When the counter was last remembered. */
  function Remembered(start: nat, rs: seq<Readings>): nat {
    if rs == [] then start else rs[|rs| - 1].second
  }

  /** An update that does not go back and comes less than 2^32 ms after the counter was remembered. */
  predicate Follows(last: nat, r: Readings) {
    last <= r.first <= r.second && r.first - last < UINT32
  }

  predicate InOrder(start: nat, rs: seq<Readings>) {
    rs == [] || (InOrder(start, rs[..|rs| - 1]) && Follows(Remembered(start, rs[..|rs| - 1]), rs[|rs| - 1]))
  }

  function GapsOf(start: nat, rs: seq<Readings>): (gs: seq<Gap>)
    requires InOrder(start, rs)
  {
    if rs == [] then []
    else
      var before, r := rs[..|rs| - 1], rs[|rs| - 1];
      GapsOf(start, before) + [Gap(r.first - Remembered(start, before), r.second - r.first)]
  }

  lemma LaterReading(a: nat, b: nat)
    requires a <= b
    ensures Later(U32(a), b - a) == U32(b)
  {}

  lemma SpacedNext(gs: seq<Gap>, g: Gap)
    requires Spaced(gs) && g.since < UINT32
    ensures Spaced(gs + [g])
  {}

  lemma RunNext(s: State, gs: seq<Gap>, g: Gap)
    ensures RunOf(s, gs + [g]) == Updated(RunOf(s, gs), g)
    ensures Total(gs + [g]) == Total(gs) + g.since + g.between && Between(gs + [g]) == Between(gs) + g.between
  {
    assert (gs + [g])[..|gs|] == gs;
  }

  lemma {:induction false} GapsTotal(start: nat, rs: seq<Readings>)
    requires InOrder(start, rs)
    ensures Spaced(GapsOf(start, rs)) && start <= Remembered(start, rs)
    ensures Total(GapsOf(start, rs)) == Remembered(start, rs) - start
  {
    if rs != [] {
      var before, r := rs[..|rs| - 1], rs[|rs| - 1];
      var g := Gap(r.first - Remembered(start, before), r.second - r.first);
      GapsTotal(start, before);
      RunNext(Refresh(0, 0), GapsOf(start, before), g);
      SpacedNext(GapsOf(start, before), g);
    }
  }

  lemma UpdatedAt(s: State, last: nat, r: Readings)
    requires s.unxMs == U32(last) && Follows(last, r)
    ensures Updated(s, Gap(r.first - last, r.second - r.first)) == Update(s, U32(r.first), U32(r.second))
  {
    LaterReading(last, r.first);
    LaterReading(last, r.second);
  }

  /** The clock depends on the time between the readings alone. */
  lemma {:induction false} ClockRuns(unixtime: int, start: nat, rs: seq<Readings>)
    requires InOrder(start, rs)
    ensures ClockAt(unixtime, start, rs) == RunOf(Refresh(unixtime, U32(start)), GapsOf(start, rs))
    ensures ClockAt(unixtime, start, rs).unxMs == U32(Remembered(start, rs))
  {
    if rs != [] {
      var before, r := rs[..|rs| - 1], rs[|rs| - 1];
      var last := Remembered(start, before);
      ClockRuns(unixtime, start, before);
      UpdatedAt(ClockAt(unixtime, start, before), last, r);
      RunNext(Refresh(unixtime, U32(start)), GapsOf(start, before), Gap(r.first - last, r.second - r.first));
    }
  }

  /** Both readings at the same time, less than 2^32 ms after the last whole second since the refresh that
      was over when the counter was remembered. */
  predicate OnTime(start: nat, last: nat, r: Readings) {
    r.first == r.second && (last - start) % 1000 + r.first - last < UINT32
  }

  predicate Regular(start: nat, rs: seq<Readings>) {
    rs == [] || (Regular(start, rs[..|rs| - 1]) && OnTime(start, Remembered(start, rs[..|rs| - 1]), rs[|rs| - 1]))
  }

  lemma OnTimeIff(start: nat, last: nat, r: Readings, g: Gap, total: nat)
    requires Follows(last, r) && g == Gap(r.first - last, r.second - r.first) && total == last - start
    ensures OnTime(start, last, r) <==> FitsAfter(total, g)
  {}

  /** Gap by gap: it fits, and no time passes between its readings. */
  predicate Fitting(gs: seq<Gap>) {
    gs == [] || (Fitting(gs[..|gs| - 1]) && FitsAfter(Total(gs[..|gs| - 1]), gs[|gs| - 1]))
  }

  predicate FitsAfter(total: nat, g: Gap) {
    g.between == 0 && total % 1000 + g.since < UINT32
  }

  lemma {:induction false} FittingIff(gs: seq<Gap>)
    ensures Fitting(gs) <==> AllFit(gs) && Between(gs) == 0
  {
    if gs != [] {
      var before, g := gs[..|gs| - 1], gs[|gs| - 1];
      FittingIff(before);
      AllFitNext(before, g);
      assert gs == before + [g];
    }
  }

  lemma FittingNext(gs: seq<Gap>, g: Gap)
    ensures Fitting(gs + [g]) <==> Fitting(gs) && FitsAfter(Total(gs), g)
  {
    assert (gs + [g])[..|gs|] == gs;
  }

  lemma {:induction false} RegularIff(start: nat, rs: seq<Readings>)
    requires InOrder(start, rs)
    ensures Regular(start, rs) <==> Fitting(GapsOf(start, rs))
  {
    if rs != [] {
      var before, r := rs[..|rs| - 1], rs[|rs| - 1];
      var last := Remembered(start, before);
      var g := Gap(r.first - last, r.second - r.first);
      RegularIff(start, before);
      GapsTotal(start, before);
      FittingNext(GapsOf(start, before), g);
      OnTimeIff(start, last, r, g, Total(GapsOf(start, before)));
    }
  }

  /** A clock refreshed at one reading of the counter and updated at later ones, however often the counter
      wraps, shows the seconds and holds back the milliseconds since the refresh exactly when the updates
      are regular. */
  lemma ExactAtIff(unixtime: int, start: nat, rs: seq<Readings>)
    requires InOrder(start, rs)
    ensures var t, passed := ClockAt(unixtime, start, rs), Remembered(start, rs) - start;
            Regular(start, rs) <==> t.localUnixtime == unixtime + passed / 1000 && t.unxSumm == passed % 1000
  {
    ClockRuns(unixtime, start, rs);
    GapsTotal(start, rs);
    RegularIff(start, rs);
    FittingIff(GapsOf(start, rs));
    ExactIff(unixtime, U32(start), GapsOf(start, rs));
  }

  /** Updates under 2^32 ms apart can still lose 2^32 ms: one held-back millisecond is enough. */
  lemma LongGap(unixtime: int, now: UInt32)
    ensures var gs := [Gap(1, 0), Gap(UINT32 - 1, 0)];
            Spaced(gs) && Total(gs) / 1000 == 4294967
            && RunOf(Refresh(unixtime, now), gs).localUnixtime == unixtime
  {
    var gs := [Gap(1, 0), Gap(UINT32 - 1, 0)];
    var s := Refresh(unixtime, now);
    assert gs[..1] == [Gap(1, 0)] && gs[..1][..0] == [];
    assert RunOf(s, gs[..1][..0]) == s;
    UpdateIs(s, Gap(1, 0));
    var t := RunOf(s, gs[..1]);
    assert t == Updated(s, Gap(1, 0)) && t.unxSumm == 1;
    UpdateIs(t, Gap(UINT32 - 1, 0));
    assert Total(gs[..1][..0]) == 0 && Total(gs[..1]) == 1;
  }

  // ---------------------------------------------------------------- the globals

  class Clock {
    var localUnixtime: int
    var unxMs: UInt32
    var unxSumm: UInt32

    function Time(): State
      reads this
    {
      State(localUnixtime, unxMs, unxSumm)
    }

    constructor ()
      ensures Time() == State(0, 0, 0)
    {
      localUnixtime, unxMs, unxSumm := 0, 0, 0;
    }

    method Set(unixtime: int, millis: UInt32)
      modifies this
      ensures Time() == Refresh(unixtime, millis)
    {
      localUnixtime, unxMs, unxSumm := unixtime, millis, 0;
    }

    /** The two arguments are the two readings of the counter. */
    method Advance(millis: UInt32, again: UInt32)
      modifies this
      ensures Time() == Update(old(Time()), millis, again)
    {
      unxSumm := U32(unxSumm + U32(millis - unxMs));
      unxMs := again;
      var nx := unxSumm / 1000;
      SplitSum(unxSumm);
      if nx > 0 {
        unxSumm := U32(unxSumm - nx * 1000);
        localUnixtime := localUnixtime + nx;
      }
    }
  }
}
