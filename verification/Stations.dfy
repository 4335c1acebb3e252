/** The table of stations connected to the device's own access point (WSKey32.ino, handlehttp.cpp). */
module Stations {
  import opened Words

  const MAX_CLIENTS := 10

  type Mac = s: string | |s| == 6 witness ['\0', '\0', '\0', '\0', '\0', '\0']

  const ZERO: Mac := ['\0', '\0', '\0', '\0', '\0', '\0']

  /** A cell is free when its address is all zero. */
  datatype Cell = Cell(mac: Mac, ms: UInt32, ip: UInt32)

  const FREE := Cell(ZERO, 0, 0)

  datatype Station = Station(mac: Mac, ip: UInt32)

  datatype Event =
    | Connected(mac: Mac, now: UInt32)
    | Disconnected(mac: Mac)
    | Assigned(stations: seq<Station>, ip: UInt32)
    | Handled(ip: UInt32, now: UInt32)

  // ---------------------------------------------------------------- the table as a value

  /** The first cell with the address, or -1. */
  function SearchMac(cells: seq<Cell>, mac: Mac, n: nat): (r: int)
    ensures r == -1 || (n <= r < |cells| && cells[r].mac == mac)
    ensures r == -1 ==> forall i | n <= i < |cells| :: cells[i].mac != mac
    decreases |cells| - n
  {
    if n >= |cells| then -1 else if cells[n].mac == mac then n else SearchMac(cells, mac, n + 1)
  }

  function SearchIp(cells: seq<Cell>, ip: UInt32, n: nat): (r: int)
    ensures r == -1 || n <= r < |cells|
    decreases |cells| - n
  {
    if n >= |cells| then -1 else if cells[n].ip == ip then n else SearchIp(cells, ip, n + 1)
  }

  /** The cell of the first listed station that is in the table and has the address, or -1. */
  function AssignedCell(cells: seq<Cell>, stations: seq<Station>, ip: UInt32, n: nat): (r: int)
    ensures r == -1 || (0 <= r < |cells| && exists i :: n <= i < |stations| && cells[r].mac == stations[i].mac)
    decreases |stations| - n
  {
    if n >= |stations| then -1
    else if SearchMac(cells, stations[n].mac, 0) != -1 && stations[n].ip == ip
    then SearchMac(cells, stations[n].mac, 0)
    else AssignedCell(cells, stations, ip, n + 1)
  }

  /** The cells after an event, and by how much the count of connections changes. */
  function StepOf(cells: seq<Cell>, e: Event): (seq<Cell>, int) {
    match e
    case Connected(mac, now) =>
      var i := SearchMac(cells, ZERO, 0);
      if SearchMac(cells, mac, 0) != -1 || i == -1 then (cells, 0)
      else (cells[i := cells[i].(mac := mac, ms := now)], 1)
    case Disconnected(mac) =>
      var i := SearchMac(cells, mac, 0);
      if i == -1 then (cells, 0) else (cells[i := FREE], -1)
    case Assigned(stations, ip) =>
      var i := AssignedCell(cells, stations, ip, 0);
      if i == -1 then (cells, 0) else (cells[i := cells[i].(ip := ip)], 0)
    case Handled(ip, now) =>
      var i := SearchIp(cells, ip, 0);
      if i == -1 || cells[i].mac == ZERO then (cells, 0) else (cells[i := cells[i].(ms := now)], 0)
  }

  /** Stations have addresses that are not all zero. */
  predicate Real(e: Event) {
    match e
    case Connected(mac, now) => mac != ZERO
    case Disconnected(mac) => mac != ZERO
    case Assigned(stations, ip) => forall i | 0 <= i < |stations| :: stations[i].mac != ZERO
    case Handled(ip, now) => true
  }

  function Occupied(cells: seq<Cell>): nat {
    if cells == [] then 0
    else Occupied(cells[..|cells| - 1]) + if cells[|cells| - 1].mac == ZERO then 0 else 1
  }

  predicate Clean(c: Cell) {
    c.mac == ZERO ==> c == FREE
  }

  predicate Inv(cells: seq<Cell>) {
    && (forall i | 0 <= i < |cells| :: Clean(cells[i]))
    && (forall i, j | 0 <= i < j < |cells| && cells[i].mac != ZERO :: cells[i].mac != cells[j].mac)
  }

  lemma {:induction false} OccupiedUpdate(cells: seq<Cell>, i: nat, c: Cell)
    requires i < |cells|
    ensures Occupied(cells[i := c]) ==
            Occupied(cells) + (if c.mac == ZERO then 0 else 1) - (if cells[i].mac == ZERO then 0 else 1)
  {
    var l := |cells| - 1;
    if i < l {
      OccupiedUpdate(cells[..l], i, c);
      assert cells[i := c][..l] == cells[..l][i := c];
    } else {
      assert cells[i := c][..l] == cells[..l];
    }
  }

  /** A cell written over keeps the invariant if it is clean and its address is new or its own. */
  lemma InvUpdate(cells: seq<Cell>, i: nat, c: Cell)
    requires Inv(cells) && i < |cells| && Clean(c)
    requires c.mac == ZERO || forall j | 0 <= j < |cells| && j != i :: cells[j].mac != c.mac
    ensures Inv(cells[i := c])
  {}

  lemma StepKeeps(cells: seq<Cell>, e: Event)
    requires Inv(cells) && Real(e)
    ensures Inv(StepOf(cells, e).0) && |StepOf(cells, e).0| == |cells|
    ensures Occupied(StepOf(cells, e).0) == Occupied(cells) + StepOf(cells, e).1
  {
    match e
    case Connected(mac, now) =>
      var i := SearchMac(cells, ZERO, 0);
      if SearchMac(cells, mac, 0) == -1 && i != -1 {
        InvUpdate(cells, i, cells[i].(mac := mac, ms := now));
        OccupiedUpdate(cells, i, cells[i].(mac := mac, ms := now));
      }
    case Disconnected(mac) =>
      var i := SearchMac(cells, mac, 0);
      if i != -1 {
        InvUpdate(cells, i, FREE);
        OccupiedUpdate(cells, i, FREE);
      }
    case Assigned(stations, ip) =>
      var i := AssignedCell(cells, stations, ip, 0);
      if i != -1 {
        InvUpdate(cells, i, cells[i].(ip := ip));
        OccupiedUpdate(cells, i, cells[i].(ip := ip));
      }
    case Handled(ip, now) =>
      var i := SearchIp(cells, ip, 0);
      if i != -1 && cells[i].mac != ZERO {
        InvUpdate(cells, i, cells[i].(ms := now));
        OccupiedUpdate(cells, i, cells[i].(ms := now));
      }
  }

  // ---------------------------------------------------------------- what each event does

  /** All cells but the one at i are the same. */
  predicate OnlyAt(cells: seq<Cell>, after: seq<Cell>, i: nat) {
    |after| == |cells| && forall j | 0 <= j < |cells| && j != i :: after[j] == cells[j]
  }

  predicate Known(cells: seq<Cell>, mac: Mac) {
    exists i :: 0 <= i < |cells| && cells[i].mac == mac
  }

  /** A station that leaves is in no cell any more; no other cell changes. */
  lemma Leaves(cells: seq<Cell>, mac: Mac)
    requires Inv(cells) && mac != ZERO
    ensures var after := StepOf(cells, Disconnected(mac)).0;
            && |after| == |cells| && !Known(after, mac)
            && forall i | 0 <= i < |cells| :: after[i] == if cells[i].mac == mac then FREE else cells[i]
  {}

  /** A new station is in one cell that was free, with the time it came, and no other cell changes; nothing
      changes when it is known or no cell is free. */
  lemma Comes(cells: seq<Cell>, mac: Mac, now: UInt32)
    requires Inv(cells) && mac != ZERO
    ensures var after := StepOf(cells, Connected(mac, now)).0;
            if Known(cells, mac) || !Known(cells, ZERO) then after == cells
            else exists i :: && 0 <= i < |cells| && cells[i] == FREE
                             && OnlyAt(cells, after, i) && after[i] == Cell(mac, now, 0)
  {
    var i := SearchMac(cells, ZERO, 0);
    if SearchMac(cells, mac, 0) == -1 && i != -1 {
      assert Clean(cells[i]);
      assert OnlyAt(cells, StepOf(cells, Connected(mac, now)).0, i);
    }
  }

  /** The listed station has the assigned address and is in the table. */
  predicate Fits(cells: seq<Cell>, s: Station, ip: UInt32) {
    s.ip == ip && Known(cells, s.mac)
  }

  /** The first such station from n on. */
  predicate Chosen(cells: seq<Cell>, stations: seq<Station>, ip: UInt32, n: nat, k: nat) {
    n <= k < |stations| && Fits(cells, stations[k], ip) && forall m | n <= m < k :: !Fits(cells, stations[m], ip)
  }

  lemma {:induction false} AssignedIs(cells: seq<Cell>, stations: seq<Station>, ip: UInt32, n: nat) returns (k: nat)
    requires n <= |stations|
    ensures var i := AssignedCell(cells, stations, ip, n);
            if i == -1 then forall m | n <= m < |stations| :: !Fits(cells, stations[m], ip)
            else Chosen(cells, stations, ip, n, k) && cells[i].mac == stations[k].mac
    decreases |stations| - n
  {
    k := n;
    if n < |stations| {
      if Fits(cells, stations[n], ip) {
        assert SearchMac(cells, stations[n].mac, 0) != -1;
      } else {
        k := AssignedIs(cells, stations, ip, n + 1);
      }
    }
  }

  /** The first listed station that has the address and is in the table gets it in its cell; no other cell
      changes, and none when there is no such station. */
  lemma Assigns(cells: seq<Cell>, stations: seq<Station>, ip: UInt32) returns (k: nat)
    requires Inv(cells) && Real(Assigned(stations, ip))
    ensures var after := StepOf(cells, Assigned(stations, ip)).0;
            if Chosen(cells, stations, ip, 0, k)
            then |after| == |cells| && forall i | 0 <= i < |cells| ::
                   after[i] == if cells[i].mac == stations[k].mac then cells[i].(ip := ip) else cells[i]
            else after == cells && forall m | 0 <= m < |stations| :: !Fits(cells, stations[m], ip)
  {
    k := AssignedIs(cells, stations, ip, 0);
  }

  lemma {:induction false} SearchIpFirst(cells: seq<Cell>, ip: UInt32, n: nat)
    ensures var r := SearchIp(cells, ip, n);
            if r == -1 then forall i | n <= i < |cells| :: cells[i].ip != ip
            else cells[r].ip == ip && forall i | n <= i < r :: cells[i].ip != ip
    decreases |cells| - n
  {
    if n < |cells| && cells[n].ip != ip {
      SearchIpFirst(cells, ip, n + 1);
    }
  }

  /** A handled command brings the time of the first cell with the client's address up to date, if a
      station is in it, and changes no other cell. */
  lemma Handles(cells: seq<Cell>, ip: UInt32, now: UInt32)
    requires Inv(cells)
    ensures var after := StepOf(cells, Handled(ip, now)).0;
            && |after| == |cells|
            && forall i | 0 <= i < |cells| ::
                 after[i] == if cells[i].ip == ip && cells[i].mac != ZERO && (forall j | 0 <= j < i :: cells[j].ip != ip)
                             then cells[i].(ms := now) else cells[i]
  {
    SearchIpFirst(cells, ip, 0);
  }

  function RunOf(cells: seq<Cell>, es: seq<Event>): (seq<Cell>, int) {
    if es == [] then (cells, 0)
    else
      var (before, n) := RunOf(cells, es[..|es| - 1]);
      var (after, d) := StepOf(before, es[|es| - 1]);
      (after, n + d)
  }

  const EMPTY: seq<Cell> := [FREE, FREE, FREE, FREE, FREE, FREE, FREE, FREE, FREE, FREE]

  /** From the empty table, after any events, the count of connections is the number of occupied cells,
      their addresses are distinct, and free cells hold neither a time nor an address. */
  lemma {:induction false} RunKeeps(es: seq<Event>)
    requires forall i | 0 <= i < |es| :: Real(es[i])
    ensures var (cells, n) := RunOf(EMPTY, es);
            Inv(cells) && |cells| == MAX_CLIENTS && n == Occupied(cells)
  {
    if es == [] {
      EmptyCells();
    } else {
      RunKeeps(es[..|es| - 1]);
      StepKeeps(RunOf(EMPTY, es[..|es| - 1]).0, es[|es| - 1]);
    }
  }

  lemma {:induction false} NoneOccupied(cells: seq<Cell>)
    requires forall i | 0 <= i < |cells| :: cells[i] == FREE
    ensures Occupied(cells) == 0
  {
    if cells != [] {
      NoneOccupied(cells[..|cells| - 1]);
    }
  }

  lemma EmptyCells()
    ensures Inv(EMPTY) && Occupied(EMPTY) == 0
  {
    NoneOccupied(EMPTY);
  }

  // ---------------------------------------------------------------- the globals

  /** How long a station has been idle, in the counter's arithmetic. */
  function Idle(c: Cell, now: UInt32): UInt32 {
    U32(now - c.ms)
  }

  /** It is the time since the cell's time, across a wrap too, if that is under 2^32 ms. */
  lemma IdleIs(c: Cell, at: nat, d: nat)
    requires c.ms == U32(at) && d < UINT32
    ensures Idle(c, U32(at + d)) == d
  {}

  class Table {
    const macs: array<Mac>
    const macMs: array<UInt32>
    const ips: array<UInt32>
    var staConnections: int

    ghost predicate Valid() {
      && macs.Length == macMs.Length == ips.Length == MAX_CLIENTS
      && macMs != ips
    }

    ghost function Cells(): (cells: seq<Cell>)
      requires Valid()
      reads macs, macMs, ips
      ensures |cells| == MAX_CLIENTS
    {
      seq(MAX_CLIENTS, i requires 0 <= i < MAX_CLIENTS reads macs, macMs, ips => Cell(macs[i], macMs[i], ips[i]))
    }

    constructor ()
      ensures Valid() && fresh(macs) && fresh(macMs) && fresh(ips)
      ensures Cells() == EMPTY && staConnections == 0
    {
      macs := new Mac[MAX_CLIENTS](_ => ZERO);
      macMs := new UInt32[MAX_CLIENTS](_ => 0);
      ips := new UInt32[MAX_CLIENTS](_ => 0);
      staConnections := 0;
    }

    method FindMac(mac: Mac) returns (r: int)
      requires Valid()
      ensures r == SearchMac(Cells(), mac, 0)
    {
      var i := 0;
      while i < MAX_CLIENTS
        invariant 0 <= i <= MAX_CLIENTS && SearchMac(Cells(), mac, 0) == SearchMac(Cells(), mac, i)
      {
        if macs[i] == mac {
          return i;
        }
        i := i + 1;
      }
      return -1;
    }

    method FindIp(ip: UInt32) returns (r: int)
      requires Valid()
      ensures r == SearchIp(Cells(), ip, 0)
    {
      var i := 0;
      while i < MAX_CLIENTS
        invariant 0 <= i <= MAX_CLIENTS && SearchIp(Cells(), ip, 0) == SearchIp(Cells(), ip, i)
      {
        if ips[i] == ip {
          return i;
        }
        i := i + 1;
      }
      return -1;
    }

    method StationConnected(mac: Mac, now: UInt32)
      requires Valid()
      modifies this, macs, macMs
      ensures (Cells(), staConnections - old(staConnections)) == StepOf(old(Cells()), Connected(mac, now))
    {
      var known := FindMac(mac);
      if known == -1 {
        var i := FindMac(ZERO);
        if i != -1 {
          macs[i], macMs[i] := mac, now;
          staConnections := staConnections + 1;
          assert Cells() == old(Cells())[i := old(Cells())[i].(mac := mac, ms := now)];
        }
      }
    }

    method StationDisconnected(mac: Mac)
      requires Valid()
      modifies this, macs, macMs, ips
      ensures (Cells(), staConnections - old(staConnections)) == StepOf(old(Cells()), Disconnected(mac))
    {
      var i := FindMac(mac);
      if i != -1 {
        macs[i] := ZERO;
        macMs[i] := 0;
        ips[i] := 0;
        staConnections := staConnections - 1;
        assert Cells() == old(Cells())[i := FREE];
      }
    }

    method IpAssigned(stations: seq<Station>, ip: UInt32)
      requires Valid()
      modifies ips
      ensures (Cells(), 0) == StepOf(old(Cells()), Assigned(stations, ip))
    {
      var i := 0;
      while i < |stations|
        invariant 0 <= i <= |stations| && Cells() == old(Cells())
        invariant AssignedCell(Cells(), stations, ip, 0) == AssignedCell(Cells(), stations, ip, i)
      {
        var ix := FindMac(stations[i].mac);
        if ix != -1 && stations[i].ip == ip {
          ips[ix] := ip;
          assert Cells() == old(Cells())[ix := old(Cells())[ix].(ip := ip)];
          return;
        }
        i := i + 1;
      }
    }

    /** A command handled for a client brings its station's time up to date. */
    method CommandHandled(ip: UInt32, now: UInt32)
      requires Valid()
      modifies macMs
      ensures (Cells(), 0) == StepOf(old(Cells()), Handled(ip, now))
    {
      var ix := FindIp(ip);
      if ix != -1 && macs[ix] != ZERO {
        macMs[ix] := now;
        assert Cells() == old(Cells())[ix := old(Cells())[ix].(ms := now)];
      }
    }

    /** The station to send away: one that has been idle longest, and none only if no station has been
        idle at all. */
    method OldestStation(now: UInt32) returns (r: int)
      requires Valid()
      ensures r == -1 || (0 <= r < MAX_CLIENTS && Cells()[r].mac != ZERO)
      ensures r == -1 ==> forall i | 0 <= i < MAX_CLIENTS && Cells()[i].mac != ZERO :: Idle(Cells()[i], now) == 0
      ensures r != -1 ==> forall i | 0 <= i < MAX_CLIENTS && Cells()[i].mac != ZERO ::
                            Idle(Cells()[i], now) <= Idle(Cells()[r], now)
    {
      ghost var cells := Cells();
      var maxt: UInt32, maxti := 0, 0;
      var i := 0;
      while i < MAX_CLIENTS
        invariant 0 <= i <= MAX_CLIENTS && 0 <= maxti < MAX_CLIENTS
        invariant forall j | 0 <= j < i && cells[j].mac != ZERO :: Idle(cells[j], now) <= maxt
        invariant maxt != 0 ==> cells[maxti].mac != ZERO && Idle(cells[maxti], now) == maxt
      {
        if macs[i] != ZERO && U32(now - macMs[i]) > maxt {
          maxt := U32(now - macMs[i]);
          maxti := i;
        }
        i := i + 1;
      }
      return if maxt != 0 && macs[maxti] != ZERO then maxti else -1;
    }
  }
}
