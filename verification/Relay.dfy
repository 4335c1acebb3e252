/** The relay: a tick every 10 ms reads the button and drops the relay when its hold time is over
    (WSKey32.ino), and commands switch it between ticks (SWparser.cpp). */
module Relay {
  import opened Words

  const TICK := 10

  /** Times are 32-bit millisecond counts; `pressed` is the button as last seen. */
  datatype State = State(interval: nat, relayMillis: nat, swMillis: nat, pressed: bool, relay: bool, reset: bool)

  datatype Event = Tick(pressed: bool) | Open | Close | On | Off

  datatype Config = Config(relayInterval: nat, resetInterval: nat)

  function TickOf(s: State, pressed: bool, c: Config): State {
    var now := U32(s.interval + TICK);
    var t := s.(interval := now);
    if s.reset then t
    else if pressed != s.pressed then
      var u := t.(pressed := pressed, swMillis := now);
      if pressed then u.(relay := true, relayMillis := now) else u
    else if pressed then
      t.(relayMillis := now, reset := U32(now - s.swMillis) >= c.resetInterval)
    else if s.relay && now < U32(s.relayMillis + c.relayInterval) then t.(swMillis := now)
    else t.(swMillis := now, relay := false, relayMillis := now)
  }

  /** A service switch that is off makes `open` and `close` do nothing; it is on here. */
  function StepOf(s: State, e: Event, c: Config): State {
    match e
    case Tick(pressed) => TickOf(s, pressed, c)
    case Open => s.(relay := true, relayMillis := s.interval)
    case On => s.(relay := true)
    case Close => s.(relay := false)
    case Off => s.(relay := false)
  }

  function RunOf(s: State, es: seq<Event>, c: Config): State {
    if es == [] then s else StepOf(RunOf(s, es[..|es| - 1], c), es[|es| - 1], c)
  }

  function Ticks(es: seq<Event>): nat {
    if es == [] then 0 else Ticks(es[..|es| - 1]) + if es[|es| - 1].Tick? then 1 else 0
  }

  /** No time in the run, nor the end of a hold that starts in it, exceeds 32 bits. */
  predicate NoWrap(s: State, es: seq<Event>, c: Config) {
    s.interval + TICK * Ticks(es) + c.relayInterval < UINT32
  }

  lemma {:induction false} RunTime(s: State, es: seq<Event>, c: Config)
    requires NoWrap(s, es, c)
    ensures RunOf(s, es, c).interval == s.interval + TICK * Ticks(es)
  {
    if es != [] {
      RunTime(s, es[..|es| - 1], c);
    }
  }

  predicate Undropped(es: seq<Event>) {
    forall i | 0 <= i < |es| :: !es[i].Close? && !es[i].Off?
  }

  /** After an activation at its time, no tick drops the relay before the hold time is over, whatever
      the button and further activations do. */
  lemma {:induction false} HeldLongEnough(s: State, es: seq<Event>, c: Config)
    requires s.relay && s.relayMillis == s.interval && NoWrap(s, es, c) && Undropped(es)
    ensures var t := RunOf(s, es, c);
            s.relayMillis <= t.relayMillis <= t.interval || t.interval >= s.interval + c.relayInterval
    ensures var t := RunOf(s, es, c);
            t.relayMillis <= t.interval && (t.relay || t.interval >= s.interval + c.relayInterval)
  {
    RunTime(s, es, c);
    if es != [] {
      HeldLongEnough(s, es[..|es| - 1], c);
      RunTime(s, es[..|es| - 1], c);
    }
  }

  // ---------------------------------------------------------------- what switches it

  /** Pressing the button switches the relay on and starts a hold time, like `open`. */
  lemma PressOpens(s: State, c: Config)
    requires !s.pressed && !s.reset
    ensures var t := TickOf(s, true, c);
            t.relay && t.pressed && !t.reset && t.relayMillis == t.swMillis == t.interval == U32(s.interval + TICK)
    ensures var t := StepOf(s, Open, c); t.relay && t.relayMillis == t.interval == s.interval
  {}

  /** So after the press no tick drops the relay before the hold time is over. */
  lemma PressHolds(s: State, es: seq<Event>, c: Config)
    requires !s.pressed && !s.reset && s.interval + TICK < UINT32
    requires NoWrap(TickOf(s, true, c), es, c) && Undropped(es)
    ensures var t := RunOf(TickOf(s, true, c), es, c);
            t.relay || t.interval >= TickOf(s, true, c).interval + c.relayInterval
  {
    PressOpens(s, c);
    HeldLongEnough(TickOf(s, true, c), es, c);
  }

  /** After `close` or `off` the relay is off and stays off until something switches it on. */
  lemma {:induction false} ClosedStays(s: State, e: Event, es: seq<Event>, c: Config)
    requires e.Close? || e.Off?
    requires NoActivation(es)
    ensures !RunOf(StepOf(s, e, c), es, c).relay
  {
    if es != [] {
      ClosedStays(s, e, es[..|es| - 1], c);
      assert es[|es| - 1] != Tick(true) && !es[|es| - 1].Open? && !es[|es| - 1].On?;
    }
  }

  function Pressed(n: nat): (es: seq<Event>)
    ensures |es| == n && forall i | 0 <= i < n :: es[i] == Tick(true)
  {
    seq(n, i requires 0 <= i < n => Tick(true))
  }

  /** A press that lasts n more ticks resets the device exactly when these are as long as the reset interval. */
  lemma {:induction false} ResetIff(s: State, n: nat, c: Config)
    requires !s.pressed && !s.reset && s.interval + TICK * (n + 1) < UINT32 && c.resetInterval > 0
    ensures var t := RunOf(s, Pressed(n + 1), c);
            && t.pressed && t.interval == s.interval + TICK * (n + 1) && t.swMillis == s.interval + TICK
            && (t.reset <==> TICK * n >= c.resetInterval)
  {
    var es := Pressed(n + 1);
    assert es[..n] == Pressed(n) && es[n] == Tick(true);
    if n == 0 {
      assert es[..0] == [];
    } else {
      ResetIff(s, n - 1, c);
    }
  }

  /** Then the ticks do nothing but count. */
  lemma {:induction false} ResetStops(s: State, es: seq<Event>, c: Config)
    requires s.reset && forall i | 0 <= i < |es| :: es[i].Tick?
    ensures RunOf(s, es, c).(interval := 0) == s.(interval := 0)
  {
    if es != [] {
      ResetStops(s, es[..|es| - 1], c);
      assert es[|es| - 1].Tick?;
    }
  }

  /** Nothing that could switch the relay on. */
  predicate NoActivation(es: seq<Event>) {
    forall i | 0 <= i < |es| :: es[i] != Tick(true) && !es[i].Open? && !es[i].On?
  }

  /** Without another activation the relay is off from the first tick at which the hold time is over. */
  lemma {:induction false} DroppedInTime(s: State, es: seq<Event>, c: Config)
    requires !s.pressed && !s.reset && s.relayMillis <= s.interval && NoWrap(s, es, c) && NoActivation(es)
    ensures var t := RunOf(s, es, c); !t.pressed && !t.reset
    ensures var t := RunOf(s, es, c); t.relay ==> t.relayMillis == s.relayMillis
    ensures var t := RunOf(s, es, c); t.relay && Ticks(es) > 0 ==> t.interval < s.relayMillis + c.relayInterval
  {
    RunTime(s, es, c);
    if es != [] {
      var before, e := es[..|es| - 1], es[|es| - 1];
      DroppedInTime(s, before, c);
      RunTime(s, before, c);
      assert e != Tick(true) && !e.Open? && !e.On?;
    }
  }

  predicate AllReleased(es: seq<Event>) {
    forall i | 0 <= i < |es| :: es[i] == Tick(false)
  }

  /** One tick with the button released. */
  lemma ReleasedTick(s: State, c: Config)
    requires !s.pressed && !s.reset && s.relayMillis <= s.interval && s.interval + TICK + c.relayInterval < UINT32
    ensures var t := TickOf(s, false, c);
            && t.interval == s.interval + TICK && !t.pressed && !t.reset && t.relayMillis <= t.interval
            && (t.relay <==> s.relay && t.interval < s.relayMillis + c.relayInterval)
            && t.relayMillis == if t.relay then s.relayMillis else t.interval
  {}

  /** With the button released and no commands, the relay is on exactly until the hold time is over. */
  lemma {:induction false} OnUntil(s: State, es: seq<Event>, c: Config)
    requires s.relay && !s.pressed && !s.reset && s.relayMillis <= s.interval && NoWrap(s, es, c)
    requires AllReleased(es) && es != []
    ensures var t := RunOf(s, es, c);
            t.interval == s.interval + TICK * |es| && (t.relay <==> t.interval < s.relayMillis + c.relayInterval)
    ensures var t := RunOf(s, es, c);
            !t.pressed && !t.reset && t.relayMillis <= t.interval && (t.relay ==> t.relayMillis == s.relayMillis)
  {
    var before := es[..|es| - 1];
    TicksOnly(es);
    if before == [] {
      ReleasedTick(s, c);
    } else {
      OnUntil(s, before, c);
      ReleasedTick(RunOf(s, before, c), c);
    }
    assert es[|es| - 1] == Tick(false);
  }

  lemma {:induction false} TicksOnly(es: seq<Event>)
    requires AllReleased(es)
    ensures Ticks(es) == |es|
  {
    if es != [] {
      TicksOnly(es[..|es| - 1]);
    }
  }

  /** The button is not seen released. */
  predicate NoRelease(es: seq<Event>) {
    forall i | 0 <= i < |es| :: es[i] != Tick(false)
  }

  /** While the button is held no tick switches the relay, whatever the commands between the ticks. */
  lemma {:induction false} TickKeepsWhilePressed(s: State, es: seq<Event>, c: Config)
    requires s.pressed && NoRelease(es)
    ensures var t := RunOf(s, es, c); t.pressed && TickOf(t, true, c).relay == t.relay
  {
    if es != [] {
      TickKeepsWhilePressed(s, es[..|es| - 1], c);
      assert es[|es| - 1] != Tick(false);
    }
  }

  /** So a relay that is on stays on unless a command drops it, and the hold time starts over at each tick
      and at each `open`. */
  lemma {:induction false} HeldWhilePressed(s: State, es: seq<Event>, c: Config)
    requires s.pressed && s.relay && s.relayMillis == s.interval && NoRelease(es) && Undropped(es)
    ensures var t := RunOf(s, es, c); t.relay && t.pressed && (t.reset || t.relayMillis == t.interval)
  {
    if es != [] {
      HeldWhilePressed(s, es[..|es| - 1], c);
      assert es[|es| - 1] != Tick(false) && !es[|es| - 1].Close? && !es[|es| - 1].Off?;
    }
  }

  // ---------------------------------------------------------------- the command `on`

  /** `on` starts no hold time of its own: the relay is then on exactly until the old one is over. */
  lemma OnHolds(s: State, es: seq<Event>, c: Config)
    requires !s.pressed && !s.reset && s.relayMillis <= s.interval && NoWrap(s, es, c)
    requires AllReleased(es) && es != []
    ensures RunOf(StepOf(s, On, c), es, c).relay <==> s.interval + TICK * |es| < s.relayMillis + c.relayInterval
  {
    OnUntil(StepOf(s, On, c), es, c);
  }

  function Released(n: nat): (es: seq<Event>)
    ensures |es| == n && AllReleased(es)
  {
    seq(n, i requires 0 <= i < n => Tick(false))
  }

  /** From here the relay stays on at every tick of a whole hold time. */
  ghost predicate HoldsFully(s: State, c: Config) {
    forall n: nat | n > 0 && TICK * n < c.relayInterval :: RunOf(s, Released(n), c).relay
  }

  /** All times are a whole number of ticks apart. */
  predicate InTicks(s: State) {
    s.relayMillis <= s.interval && (s.interval - s.relayMillis) % TICK == 0
  }

  const START := State(0, 0, 0, false, false, false)

  lemma {:induction false} RunInTicks(s: State, es: seq<Event>, c: Config)
    requires InTicks(s) && NoWrap(s, es, c)
    ensures InTicks(RunOf(s, es, c))
  {
    RunTime(s, es, c);
    if es != [] {
      RunInTicks(s, es[..|es| - 1], c);
      RunTime(s, es[..|es| - 1], c);
    }
  }

  lemma OnFullyIff(s: State, c: Config)
    requires !s.pressed && !s.reset && InTicks(s) && TICK < c.relayInterval
    requires s.interval + 2 * c.relayInterval < UINT32
    ensures HoldsFully(StepOf(s, On, c), c) <==> s.relayMillis == s.interval
  {
    forall n: nat | n > 0 && TICK * n < c.relayInterval
      ensures RunOf(StepOf(s, On, c), Released(n), c).relay <==> s.interval + TICK * n < s.relayMillis + c.relayInterval
    {
      TicksOnly(Released(n));
      OnHolds(s, Released(n), c);
    }
    var last := (c.relayInterval - 1) / TICK;
    assert last > 0 && TICK * last < c.relayInterval <= TICK * last + TICK;
    if s.relayMillis < s.interval {
      assert s.relayMillis + TICK <= s.interval;
      assert !RunOf(StepOf(s, On, c), Released(last), c).relay;
    }
  }

  /** In every state a run reaches with the button released, `on` holds the relay for a whole hold time
      exactly when the old hold time begins now. */
  lemma OnFullyAfter(es: seq<Event>, c: Config)
    requires NoWrap(START, es, c) && TICK < c.relayInterval
    requires var s := RunOf(START, es, c);
             !s.pressed && !s.reset && s.interval + 2 * c.relayInterval < UINT32
    ensures var s := RunOf(START, es, c); HoldsFully(StepOf(s, On, c), c) <==> s.relayMillis == s.interval
  {
    RunInTicks(START, es, c);
    OnFullyIff(RunOf(START, es, c), c);
  }

  /** So it does after any tick, with the button released, that leaves the relay off. */
  lemma OnAfterIdle(es: seq<Event>, c: Config)
    requires NoWrap(START, es + [Tick(false)], c) && TICK < c.relayInterval
    requires var s := RunOf(START, es, c);
             !s.pressed && !s.reset && !s.relay && s.interval + TICK + 2 * c.relayInterval < UINT32
    ensures HoldsFully(StepOf(RunOf(START, es + [Tick(false)], c), On, c), c)
  {
    assert (es + [Tick(false)])[..|es|] == es;
    RunInTicks(START, es, c);
    ReleasedTick(RunOf(START, es, c), c);
    OnFullyAfter(es + [Tick(false)], c);
  }

  lemma {:induction false} RunConcat(s: State, es: seq<Event>, fs: seq<Event>, c: Config)
    ensures RunOf(s, es + fs, c) == RunOf(RunOf(s, es, c), fs, c)
  {
    if fs == [] {
      assert es + fs == es;
    } else {
      var before := fs[..|fs| - 1];
      RunConcat(s, es, before, c);
      assert (es + fs)[..|es + fs| - 1] == es + before;
    }
  }

  lemma OpenHeld(n: nat, c: Config)
    requires n > 0 && TICK * n < c.relayInterval && 2 * c.relayInterval < UINT32
    ensures RunOf(START, [Open] + Released(n), c).(swMillis := 0) == State(TICK * n, 0, 0, false, true, false)
  {
    RunConcat(START, [Open], Released(n), c);
    assert [Open][..0] == [];
    TicksOnly(Released(n));
    OnUntil(StepOf(START, Open, c), Released(n), c);
  }

  lemma CloseThenOn(s: State, c: Config)
    requires s.relay
    ensures RunOf(s, [Close, On], c) == s && RunOf(s, [Close, On, Tick(false)], c) == TickOf(s, false, c)
  {
    assert [Close, On, Tick(false)][..2] == [Close, On] && [Close, On][..1] == [Close] && [Close][..0] == [];
    assert RunOf(s, [Close], c) == s.(relay := false);
  }

  /** So after `close` and `on` at the end of a hold time the relay drops at the very next tick. */
  lemma OnAfterClose(n: nat, c: Config)
    requires n > 0 && TICK * n < c.relayInterval <= TICK * (n + 1) && 2 * (c.relayInterval + TICK) < UINT32
    ensures var es := [Open] + Released(n);
            && RunOf(START, es, c).relay && RunOf(START, es + [Close, On], c).relay
            && !RunOf(START, es + [Close, On, Tick(false)], c).relay
  {
    var es := [Open] + Released(n);
    var s := RunOf(START, es, c);
    OpenHeld(n, c);
    CloseThenOn(s, c);
    RunConcat(START, es, [Close, On], c);
    RunConcat(START, es, [Close, On, Tick(false)], c);
    ReleasedTick(s, c);
  }

  // ---------------------------------------------------------------- the globals

  class Controller {
    const config: Config
    var interval10ms: nat
    var relayMillis: nat
    var swMillis: nat
    var swPressed: bool
    var relayState: bool
    var rstMode: bool

    function Globals(): State
      reads this
    {
      State(interval10ms, relayMillis, swMillis, swPressed, relayState, rstMode)
    }

    constructor (config: Config)
      ensures this.config == config && Globals() == START
    {
      this.config := config;
      interval10ms, relayMillis, swMillis := 0, 0, 0;
      swPressed, relayState, rstMode := false, false, false;
    }

    /** The timer interrupt */
    method ScanKeys(pressed: bool)
      modifies this
      ensures Globals() == TickOf(old(Globals()), pressed, config)
    {
      interval10ms := U32(interval10ms + TICK);
      if rstMode {
        return;
      }
      if pressed != swPressed {
        swPressed, swMillis := pressed, interval10ms;
        if swPressed {
          relayState, relayMillis := true, interval10ms;
        }
      } else if swPressed {
        relayMillis := interval10ms;
        if U32(interval10ms - swMillis) >= config.resetInterval {
          rstMode := true;
        }
      } else {
        swMillis := interval10ms;
        if relayState {
          if interval10ms >= U32(relayMillis + config.relayInterval) {
            relayMillis, relayState := interval10ms, false;
          }
        } else {
          relayMillis := interval10ms;
        }
      }
    }

    /** The commands that switch the relay */
    method Process(command: Event)
      requires !command.Tick?
      modifies this
      ensures Globals() == StepOf(old(Globals()), command, config)
    {
      if command.Open? {
        relayMillis, relayState := interval10ms, true;
      } else {
        relayState := command.On?;
      }
    }
  }
}
