/** X display and CDP port numbers handed to browser sessions that start, fail
    and are killed in any interleaving. */
module Allocator {
  import opened Bytes

  // ---- specification of one pool ----

  datatype Pool = Pool(start: nat, end: nat)

  predicate InRange(p: Pool, n: nat) { p.start <= n <= p.end }

  /** The lowest free number from `n` on. */
  function FirstFree(p: Pool, inUse: set<nat>, n: nat): (r: Option<nat>)
    ensures r.Some? ==> n <= r.value <= p.end && r.value !in inUse
    ensures r.Some? ==> forall k :: n <= k < r.value ==> k in inUse
    ensures r.None? ==> forall k :: n <= k <= p.end ==> k in inUse
    decreases p.end + 1 - n
  {
    if n > p.end then None else if n !in inUse then Some(n) else FirstFree(p, inUse, n + 1)
  }

  function Allocate(p: Pool, inUse: set<nat>): Option<nat> { FirstFree(p, inUse, p.start) }

  // ---- sessions ----

  /** Exit points between the allocations and a running session: profile
      directory, Xvnc start, port wait, Chromium start, liveness check. */
  const STAGES: nat := 5

  /** What the caller has left of a session that is over: a killed one still
      names its display, a failed spawn left nothing. */
  datatype Left = Nothing | Record(display: nat)

  /** Where one session stands between two atomic steps. */
  datatype Phase =
    | New(needCdp: bool)
    | GotDisplay(display: nat)
    | Starting(display: nat, cdp: Option<nat>, stage: nat)
    | Live(display: nat, cdp: Option<nat>)
    | ReleasingCdp(port: nat, left: Left)
    | Gone(left: Left)

  /** The display and the port a session holds in a phase. */
  function DisplayOf(ph: Phase): Option<nat> {
    match ph
    case GotDisplay(d) => Some(d)
    case Starting(d, _, _) => Some(d)
    case Live(d, _) => Some(d)
    case _ => None
  }

  function CdpOf(ph: Phase): Option<nat> {
    match ph
    case Starting(_, c, _) => c
    case Live(_, c) => c
    case ReleasingCdp(c, _) => Some(c)
    case _ => None
  }

  datatype World = World(displays: set<nat>, cdps: set<nat>, sessions: seq<Phase>)

  datatype Pools = Pools(display: Pool, cdp: Pool)

  /** What a step of one session can touch: the pools and its own phase. */
  datatype Local = Local(displays: set<nat>, cdps: set<nat>, phase: Phase)

  /** The display goes first; the port, if any, in a step of its own. */
  function Release(l: Local, d: nat, c: Option<nat>, left: Left): Local {
    Local(l.displays - {d}, l.cdps, if c == None then Gone(left) else ReleasingCdp(c.value, left))
  }

  /** One atomic step. `stop` makes a starting session fail at its current exit
      point, or kills a live one. */
  function Next(p: Pools, l: Local, stop: bool): Local {
    match l.phase
    case New(needCdp) =>
      (match Allocate(p.display, l.displays)
       case None => l.(phase := Gone(Nothing))
       case Some(d) =>
         l.(displays := l.displays + {d}, phase := if needCdp then GotDisplay(d) else Starting(d, None, 0)))
    case GotDisplay(d) =>
      (match Allocate(p.cdp, l.cdps)
       case None => l.(displays := l.displays - {d}, phase := Gone(Nothing))
       case Some(c) => l.(cdps := l.cdps + {c}, phase := Starting(d, Some(c), 0)))
    case Starting(d, c, stage) =>
      if stop then Release(l, d, c, Nothing)
      else l.(phase := if stage + 1 < STAGES then Starting(d, c, stage + 1) else Live(d, c))
    case Live(d, c) => if stop then Release(l, d, c, Record(d)) else l
    case ReleasingCdp(c, left) => l.(cdps := l.cdps - {c}, phase := Gone(left))
    case Gone(_) => l
  }

  function LocalOf(w: World, i: nat): Local
    requires i < |w.sessions|
  {
    Local(w.displays, w.cdps, w.sessions[i])
  }

  /** The sessions with session `i` as in `l`. */
  function Placed(sessions: seq<Phase>, i: nat, l: Local): World
    requires i < |sessions|
  {
    World(l.displays, l.cdps, sessions[i := l.phase])
  }

  /** One atomic step of session `i`. */
  function Step(p: Pools, w: World, i: nat, stop: bool): (r: World)
    ensures |r.sessions| == |w.sessions|
  {
    if i >= |w.sessions| then w else Placed(w.sessions, i, Next(p, LocalOf(w, i), stop))
  }

  datatype Turn = Turn(session: nat, stop: bool)

  /** A world in which these sessions are about to be spawned. */
  function Start(needs: seq<bool>): World {
    World({}, {}, seq(|needs|, i requires 0 <= i < |needs| => New(needs[i])))
  }

  function Run(p: Pools, needs: seq<bool>, turns: seq<Turn>): World {
    if turns == [] then Start(needs)
    else
      var t := turns[|turns| - 1];
      Step(p, Run(p, needs, turns[..|turns| - 1]), t.session, t.stop)
  }

  // ---- the invariant ----

  /** `inUse` is exactly what the sessions hold: each number by one session, and
      within the pool. */
  ghost predicate Exact(p: Pool, inUse: set<nat>, held: seq<Option<nat>>) {
    && (forall n :: n in inUse ==> InRange(p, n) && exists i :: 0 <= i < |held| && held[i] == Some(n))
    && (forall i :: 0 <= i < |held| && held[i].Some? ==> held[i].value in inUse)
    && (forall i, j :: 0 <= i < j < |held| && held[i].Some? ==> held[i] != held[j])
  }

  function Displays(sessions: seq<Phase>): (h: seq<Option<nat>>)
    ensures |h| == |sessions| && forall i :: 0 <= i < |h| ==> h[i] == DisplayOf(sessions[i])
  {
    seq(|sessions|, i requires 0 <= i < |sessions| => DisplayOf(sessions[i]))
  }

  function Cdps(sessions: seq<Phase>): (h: seq<Option<nat>>)
    ensures |h| == |sessions| && forall i :: 0 <= i < |h| ==> h[i] == CdpOf(sessions[i])
  {
    seq(|sessions|, i requires 0 <= i < |sessions| => CdpOf(sessions[i]))
  }

  ghost predicate Inv(p: Pools, w: World) {
    Exact(p.display, w.displays, Displays(w.sessions)) && Exact(p.cdp, w.cdps, Cdps(w.sessions))
  }

  lemma ExactTake(p: Pool, inUse: set<nat>, held: seq<Option<nat>>, i: nat, n: nat)
    requires Exact(p, inUse, held) && i < |held| && held[i] == None && InRange(p, n) && n !in inUse
    ensures Exact(p, inUse + {n}, held[i := Some(n)])
  {
    var held' := held[i := Some(n)];
    forall m | m in inUse + {n}
      ensures InRange(p, m) && exists j :: 0 <= j < |held'| && held'[j] == Some(m)
    {
      if m == n {
        assert held'[i] == Some(m);
      } else {
        var j :| 0 <= j < |held| && held[j] == Some(m);
        assert held'[j] == Some(m);
      }
    }
  }

  lemma ExactGive(p: Pool, inUse: set<nat>, held: seq<Option<nat>>, i: nat, n: nat)
    requires Exact(p, inUse, held) && i < |held| && held[i] == Some(n)
    ensures Exact(p, inUse - {n}, held[i := None])
  {
    var held' := held[i := None];
    forall m | m in inUse - {n}
      ensures InRange(p, m) && exists j :: 0 <= j < |held'| && held'[j] == Some(m)
    {
      var j :| 0 <= j < |held| && held[j] == Some(m);
      assert held'[j] == Some(m);
    }
  }

  lemma HeldAfter(sessions: seq<Phase>, i: nat, ph: Phase)
    requires i < |sessions|
    ensures Displays(sessions[i := ph]) == Displays(sessions)[i := DisplayOf(ph)]
    ensures Cdps(sessions[i := ph]) == Cdps(sessions)[i := CdpOf(ph)]
  {
    hide DisplayOf, CdpOf;
  }

  lemma SameHeld(held: seq<Option<nat>>, i: nat)
    requires i < |held|
    ensures held[i := held[i]] == held
  {
  }

  lemma AllocateIsFree(p: Pool, inUse: set<nat>)
    ensures var r := Allocate(p, inUse);
            r.Some? ==> InRange(p, r.value) && r.value !in inUse
  {
  }

  lemma StepKeepsInv(p: Pools, w: World, i: nat, stop: bool)
    requires Inv(p, w)
    ensures Inv(p, Step(p, w, i, stop))
  {
    hide Exact, Allocate, Displays, Cdps;
    if i < |w.sessions| {
      var ds, cs := Displays(w.sessions), Cdps(w.sessions);
      SameHeld(ds, i);
      SameHeld(cs, i);
      HeldAfter(w.sessions, i, Next(p, LocalOf(w, i), stop).phase);
      match w.sessions[i] {
        case New(_) =>
          AllocateIsFree(p.display, w.displays);
          if Allocate(p.display, w.displays).Some? {
            ExactTake(p.display, w.displays, ds, i, Allocate(p.display, w.displays).value);
          }
        case GotDisplay(d) =>
          AllocateIsFree(p.cdp, w.cdps);
          if Allocate(p.cdp, w.cdps).Some? {
            ExactTake(p.cdp, w.cdps, cs, i, Allocate(p.cdp, w.cdps).value);
          } else {
            ExactGive(p.display, w.displays, ds, i, d);
          }
        case Starting(d, _, _) => ExactGive(p.display, w.displays, ds, i, d);
        case Live(d, _) => ExactGive(p.display, w.displays, ds, i, d);
        case ReleasingCdp(c, _) => ExactGive(p.cdp, w.cdps, cs, i, c);
        case Gone(_) =>
      }
    }
  }

  /** In every interleaving of spawns failing anywhere and kills, each in-use
      set is exactly the numbers held by live or in-flight sessions, those are
      distinct and within the range. */
  lemma {:induction false} PoolsAreExact(p: Pools, needs: seq<bool>, turns: seq<Turn>)
    ensures Inv(p, Run(p, needs, turns))
  {
    hide Step;
    if turns != [] {
      PoolsAreExact(p, needs, turns[..|turns| - 1]);
      var t := turns[|turns| - 1];
      StepKeepsInv(p, Run(p, needs, turns[..|turns| - 1]), t.session, t.stop);
    }
  }

  /** Every number of the pool is held. */
  ghost predicate AllHeld(p: Pool, held: seq<Option<nat>>) {
    forall n: nat :: InRange(p, n) ==> exists j :: 0 <= j < |held| && held[j] == Some(n)
  }

  lemma NoneMeansAllHeld(p: Pool, inUse: set<nat>, held: seq<Option<nat>>)
    requires Exact(p, inUse, held)
    ensures Allocate(p, inUse) == None <==> AllHeld(p, held)
  {
    AllocateIsFree(p, inUse);
    if Allocate(p, inUse) == None {
      forall n: nat | InRange(p, n)
        ensures exists j :: 0 <= j < |held| && held[j] == Some(n)
      {
        assert n in inUse;
      }
    } else {
      var n := Allocate(p, inUse).value;
      assert forall j :: 0 <= j < |held| ==> held[j] != Some(n);
    }
  }

  /** A spawn is refused a display, or a port, if and only if live and in-flight
      sessions hold every number of that range. */
  lemma RefusedOnlyWhenFull(p: Pools, needs: seq<bool>, turns: seq<Turn>, i: nat, stop: bool)
    requires i < |Run(p, needs, turns).sessions|
    ensures var w := Run(p, needs, turns);
            var refused := Step(p, w, i, stop).sessions[i] == Gone(Nothing);
            && (w.sessions[i].New? ==> (refused <==> AllHeld(p.display, Displays(w.sessions))))
            && (w.sessions[i].GotDisplay? ==> (refused <==> AllHeld(p.cdp, Cdps(w.sessions))))
  {
    hide Run, Exact, AllHeld, Allocate, Displays, Cdps;
    PoolsAreExact(p, needs, turns);
    var w := Run(p, needs, turns);
    NoneMeansAllHeld(p.display, w.displays, Displays(w.sessions));
    NoneMeansAllHeld(p.cdp, w.cdps, Cdps(w.sessions));
  }

  /** Once every session is gone, whatever went wrong on the way, every number
      is free again. */
  lemma NothingLeaks(p: Pools, needs: seq<bool>, turns: seq<Turn>)
    requires var w := Run(p, needs, turns); forall i :: 0 <= i < |w.sessions| ==> w.sessions[i].Gone?
    ensures var w := Run(p, needs, turns); w.displays == {} && w.cdps == {}
  {
    hide Run;
    PoolsAreExact(p, needs, turns);
    var w := Run(p, needs, turns);
    forall n
      ensures n !in w.displays && n !in w.cdps
    {
      assert forall j :: 0 <= j < |w.sessions| ==> Displays(w.sessions)[j] == None && Cdps(w.sessions)[j] == None;
    }
  }

  // ---- a second kill ----

  /** `kill` on a session that was killed before: the display its record still
      names is released again; the port was taken out of the record. */
  function KillAgain(w: World, i: nat): World
    requires i < |w.sessions|
  {
    match w.sessions[i]
    case Gone(Record(d)) => w.(displays := w.displays - {d})
    case _ => w
  }

  /** At any point of any run, killing a session a second time does no harm if
      and only if nobody has been given its display since. */
  lemma SecondKillIsHarmlessIff(p: Pools, needs: seq<bool>, turns: seq<Turn>, i: nat)
    requires var w := Run(p, needs, turns); i < |w.sessions| && w.sessions[i].Gone? && w.sessions[i].left.Record?
    ensures var w := Run(p, needs, turns);
            var d := w.sessions[i].left.display;
            Inv(p, KillAgain(w, i)) <==> forall j :: 0 <= j < |w.sessions| ==> DisplayOf(w.sessions[j]) != Some(d)
  {
    hide Run;
    PoolsAreExact(p, needs, turns);
    var w := Run(p, needs, turns);
    var d, held := w.sessions[i].left.display, Displays(w.sessions);
    if j :| 0 <= j < |w.sessions| && DisplayOf(w.sessions[j]) == Some(d) {
      assert held[j] == Some(d) && d !in KillAgain(w, i).displays;
    } else {
      assert forall j :: 0 <= j < |held| ==> held[j] != Some(d);
      assert KillAgain(w, i).displays == w.displays;
    }
  }

  /** `n` turns in a row of one session, none of them a stop. */
  function Going(i: nat, n: nat): seq<Turn> { seq(n, _ => Turn(i, false)) }

  lemma RunStep(p: Pools, needs: seq<bool>, turns: seq<Turn>, i: nat, stop: bool)
    ensures Run(p, needs, turns + [Turn(i, stop)]) == Step(p, Run(p, needs, turns), i, stop)
  {
    hide Step;
    var all := turns + [Turn(i, stop)];
    assert all[..|all| - 1] == turns;
  }

  /** A session without a port that goes through all its stages is live. */
  lemma SpawnRun(p: Pools, needs: seq<bool>, turns: seq<Turn>, i: nat)
    requires var w := Run(p, needs, turns);
             i < |w.sessions| && w.sessions[i] == New(false) && Allocate(p.display, w.displays).Some?
    ensures var w := Run(p, needs, turns);
            var d := Allocate(p.display, w.displays).value;
            Run(p, needs, turns + Going(i, STAGES + 1))
            == Placed(w.sessions, i, Local(w.displays + {d}, w.cdps, Live(d, None)))
  {
    hide Run, Allocate;
    var w := Run(p, needs, turns);
    var d := Allocate(p.display, w.displays).value;
    var n := 1;
    RunStep(p, needs, turns, i, false);
    assert turns + Going(i, 1) == turns + [Turn(i, false)];
    while n <= STAGES
      invariant 1 <= n <= STAGES + 1
      invariant Run(p, needs, turns + Going(i, n)) == Placed(w.sessions, i,
                  Local(w.displays + {d}, w.cdps, if n <= STAGES then Starting(d, None, n - 1) else Live(d, None)))
    {
      RunStep(p, needs, turns + Going(i, n), i, false);
      assert turns + Going(i, n) + [Turn(i, false)] == turns + Going(i, n + 1);
      var next := if n < STAGES then Starting(d, None, n) else Live(d, None);
      assert w.sessions[i := Starting(d, None, n - 1)][i := next] == w.sessions[i := next];
      n := n + 1;
    }
  }

  /** One session started and killed, then another started. */
  function KilledThenAnother(): seq<Turn> { Going(0, STAGES + 1) + [Turn(0, true)] + Going(1, STAGES + 1) }

  /** Whatever the pool, it happens: the second session has the first one's
      display, and after a second kill of the first the next spawn is given it
      too. */
  lemma SecondKillStealsTheDisplay(p: Pools)
    requires p.display.start <= p.display.end
    ensures var w := Run(p, [false, false], KilledThenAnother());
            var d := p.display.start;
            && w.sessions == [Gone(Record(d)), Live(d, None)] && w.displays == {d}
            && Allocate(p.display, KillAgain(w, 0).displays) == Some(d) && !Inv(p, KillAgain(w, 0))
  {
    var needs, d := [false, false], p.display.start;
    var first := Going(0, STAGES + 1);
    var empty: World := Start(needs);
    assert Run(p, needs, []) == empty && empty.sessions == [New(false), New(false)];
    assert Allocate(p.display, {}) == Some(d);
    assert [] + first == first;
    SpawnRun(p, needs, [], 0);
    RunStep(p, needs, first, 0, true);
    var w1 := Run(p, needs, first + [Turn(0, true)]);
    assert w1.sessions == [Gone(Record(d)), New(false)] && w1.displays == {};
    SpawnRun(p, needs, first + [Turn(0, true)], 1);
    var w := Run(p, needs, KilledThenAnother());
    assert w.sessions == [Gone(Record(d)), Live(d, None)] && w.displays == {d};
    assert KillAgain(w, 0).displays == {};
    assert DisplayOf(w.sessions[1]) == Some(d);
    SecondKillIsHarmlessIff(p, needs, KilledThenAnother(), 0);
  }

  // ---- the code ----

  class RangeAllocator {
    var inUse: set<nat>
    const pool: Pool

    constructor (start: nat, end: nat)
      ensures inUse == {} && pool == Pool(start, end)
    {
      inUse, pool := {}, Pool(start, end);
    }

    method AllocateNumber() returns (r: Option<nat>)
      modifies this
      ensures r == Allocate(pool, old(inUse))
      ensures inUse == if r == None then old(inUse) else old(inUse) + {r.value}
      ensures r == None <==> forall n: nat :: InRange(pool, n) ==> n in old(inUse)
    {
      var n := pool.start;
      while n <= pool.end
        invariant pool.start <= n && inUse == old(inUse)
        invariant FirstFree(pool, inUse, pool.start) == FirstFree(pool, inUse, n)
      {
        if n !in inUse {
          inUse := inUse + {n};
          return Some(n);
        }
        n := n + 1;
      }
      return None;
    }

    method ReleaseNumber(n: nat)
      modifies this
      ensures inUse == old(inUse) - {n}
    {
      inUse := inUse - {n};
    }
  }

  datatype SpawnError = NoDisplayAvailable | NoCdpPortAvailable | XvncSpawn | ChromiumSpawn

  datatype SpawnResult = Spawned(display: nat, cdp: Option<nat>) | Failed(error: SpawnError)

  /** Session `i` takes these turns with nothing in between. */
  function Alone(p: Pools, w: World, i: nat, stops: seq<bool>): World {
    if stops == [] then w else Step(p, Alone(p, w, i, stops[..|stops| - 1]), i, stops[|stops| - 1])
  }

  lemma NoTurns(p: Pools, w: World, i: nat)
    ensures Alone(p, w, i, []) == w
  {
  }

  /** The next turn of a session that has had nothing in between. */
  lemma AloneNext(p: Pools, w: World, i: nat, stops: seq<bool>, sessions: seq<Phase>, l: Local, stop: bool)
    requires i < |sessions| && Alone(p, w, i, stops) == Placed(sessions, i, l)
    ensures Alone(p, w, i, stops + [stop]) == Placed(sessions, i, Next(p, l, stop))
  {
    hide Next;
    var l' := Next(p, l, stop);
    assert (stops + [stop])[..|stops|] == stops;
    assert sessions[i := l.phase][i := l'.phase] == sessions[i := l'.phase];
  }

  /** The turns in which a session gives back what it holds. */
  function Releases(c: Option<nat>): seq<bool> { if c == None then [true] else [true] + [true] }

  function Without(cdps: set<nat>, c: Option<nat>): set<nat> { if c == None then cdps else cdps - {c.value} }

  /** A session that fails at an exit point, or is killed, gives everything back. */
  lemma ReleaseTurns(p: Pools, w: World, i: nat, stops: seq<bool>, sessions: seq<Phase>, l: Local,
                     d: nat, c: Option<nat>)
    requires i < |sessions| && Alone(p, w, i, stops) == Placed(sessions, i, l)
    requires l.phase == Live(d, c) || (l.phase.Starting? && l.phase.display == d && l.phase.cdp == c)
    ensures var left := if l.phase.Live? then Record(d) else Nothing;
            Alone(p, w, i, stops + Releases(c))
            == Placed(sessions, i, Local(l.displays - {d}, Without(l.cdps, c), Gone(left)))
  {
    hide Alone, Placed;
    AloneNext(p, w, i, stops, sessions, l, true);
    if c.Some? {
      AloneNext(p, w, i, stops + [true], sessions, Next(p, l, true), true);
      Regroup(stops, [true], [true]);
    }
  }

  class BrowserManager {
    const displays: RangeAllocator
    const cdps: RangeAllocator

    ghost predicate Valid() { displays != cdps }

    constructor (displayStart: nat, displayEnd: nat, cdpStart: nat, cdpEnd: nat)
      ensures Valid() && fresh(displays) && fresh(cdps) && displays.inUse == cdps.inUse == {}
      ensures displays.pool == Pool(displayStart, displayEnd) && cdps.pool == Pool(cdpStart, cdpEnd)
    {
      displays := new RangeAllocator(displayStart, displayEnd);
      cdps := new RangeAllocator(cdpStart, cdpEnd);
    }

    ghost function PoolsOf(): Pools { Pools(displays.pool, cdps.pool) }

    /** The numbers in use, session `i` of `sessions` being in phase `ph`. */
    ghost function Now(sessions: seq<Phase>, i: nat, ph: Phase): World
      requires i < |sessions|
      reads displays, cdps
    {
      Placed(sessions, i, Local(displays.inUse, cdps.inUse, ph))
    }

    /** `spawn`: what it does to the pools is turns of its session, with nothing
        in between. `failsAt` is the exit point at which a process or file
        operation fails, if one does. */
    method Spawn(needCdp: bool, failsAt: Option<nat>, ghost sessions: seq<Phase>, ghost i: nat)
      returns (r: SpawnResult, ghost stops: seq<bool>)
      requires Valid() && i < |sessions|
      modifies displays, cdps
      ensures Alone(PoolsOf(), old(Now(sessions, i, New(needCdp))), i, stops)
              == Now(sessions, i, if r.Spawned? then Live(r.display, r.cdp) else Gone(Nothing))
      ensures r.Spawned? ==>
                && Allocate(displays.pool, old(displays.inUse)) == Some(r.display)
                && displays.inUse == old(displays.inUse) + {r.display}
                && r.cdp == (if needCdp then Allocate(cdps.pool, old(cdps.inUse)) else None)
                && r.cdp.Some? == needCdp
                && cdps.inUse == old(cdps.inUse) + (if r.cdp == None then {} else {r.cdp.value})
      ensures !r.Spawned? ==> displays.inUse == old(displays.inUse) && cdps.inUse == old(cdps.inUse)
      ensures r == Failed(NoDisplayAvailable) <==> Allocate(displays.pool, old(displays.inUse)) == None
      ensures r == Failed(NoCdpPortAvailable) <==>
                && needCdp && Allocate(displays.pool, old(displays.inUse)).Some?
                && Allocate(cdps.pool, old(cdps.inUse)) == None
      ensures r != Failed(NoDisplayAvailable) && r != Failed(NoCdpPortAvailable) ==>
                && (r.Spawned? <==> failsAt == None || failsAt.value >= STAGES)
                && (r == Failed(XvncSpawn) <==> failsAt == Some(1) || failsAt == Some(2))
                && (r == Failed(ChromiumSpawn) <==> failsAt == Some(0) || failsAt == Some(3) || failsAt == Some(4))
    {
      hide FirstFree, Alone, Placed;
      ghost var w, p := Now(sessions, i, New(needCdp)), PoolsOf();
      AllocateIsFree(displays.pool, old(displays.inUse));
      AllocateIsFree(cdps.pool, old(cdps.inUse));
      stops := [];
      NoTurns(p, w, i);
      AloneNext(p, w, i, stops, sessions, Local(displays.inUse, cdps.inUse, New(needCdp)), false);
      stops := stops + [false];
      var number := displays.AllocateNumber();
      if number == None { return Failed(NoDisplayAvailable), stops; }
      var display := number.value;

      var cdp: Option<nat> := None;
      if needCdp {
        AloneNext(p, w, i, stops, sessions, Local(displays.inUse, cdps.inUse, GotDisplay(display)), false);
        stops := stops + [false];
        cdp := cdps.AllocateNumber();
        if cdp == None {
          displays.ReleaseNumber(display);
          return Failed(NoCdpPortAvailable), stops;
        }
      }

      ghost var l0 := Local(displays.inUse, cdps.inUse, Starting(display, cdp, 0));
      ReleaseTurns(p, w, i, stops, sessions, l0, display, cdp);
      if failsAt == Some(0) {
        displays.ReleaseNumber(display);
        if cdp.Some? {
          cdps.ReleaseNumber(cdp.value);
        }
        return Failed(ChromiumSpawn), stops + Releases(cdp);
      }
      AloneNext(p, w, i, stops, sessions, l0, false);
      stops := stops + [false];

      ghost var l1 := Local(displays.inUse, cdps.inUse, Starting(display, cdp, 1));
      ReleaseTurns(p, w, i, stops, sessions, l1, display, cdp);
      if failsAt == Some(1) {
        displays.ReleaseNumber(display);
        if cdp.Some? {
          cdps.ReleaseNumber(cdp.value);
        }
        return Failed(XvncSpawn), stops + Releases(cdp);
      }
      AloneNext(p, w, i, stops, sessions, l1, false);
      stops := stops + [false];

      ghost var l2 := Local(displays.inUse, cdps.inUse, Starting(display, cdp, 2));
      ReleaseTurns(p, w, i, stops, sessions, l2, display, cdp);
      if failsAt == Some(2) {
        displays.ReleaseNumber(display);
        if cdp.Some? {
          cdps.ReleaseNumber(cdp.value);
        }
        return Failed(XvncSpawn), stops + Releases(cdp);
      }
      AloneNext(p, w, i, stops, sessions, l2, false);
      stops := stops + [false];

      ghost var l3 := Local(displays.inUse, cdps.inUse, Starting(display, cdp, 3));
      ReleaseTurns(p, w, i, stops, sessions, l3, display, cdp);
      if failsAt == Some(3) {
        displays.ReleaseNumber(display);
        if cdp.Some? {
          cdps.ReleaseNumber(cdp.value);
        }
        return Failed(ChromiumSpawn), stops + Releases(cdp);
      }
      AloneNext(p, w, i, stops, sessions, l3, false);
      stops := stops + [false];

      ghost var l4 := Local(displays.inUse, cdps.inUse, Starting(display, cdp, 4));
      ReleaseTurns(p, w, i, stops, sessions, l4, display, cdp);
      if failsAt == Some(4) {
        displays.ReleaseNumber(display);
        if cdp.Some? {
          cdps.ReleaseNumber(cdp.value);
        }
        return Failed(ChromiumSpawn), stops + Releases(cdp);
      }
      AloneNext(p, w, i, stops, sessions, l4, false);
      stops := stops + [false];
      return Spawned(display, cdp), stops;
    }

    /** `kill` of a live session. */
    method Kill(display: nat, cdp: Option<nat>, ghost sessions: seq<Phase>, ghost i: nat)
      requires Valid() && i < |sessions|
      modifies displays, cdps
      ensures Alone(PoolsOf(), old(Now(sessions, i, Live(display, cdp))), i, Releases(cdp))
              == Now(sessions, i, Gone(Record(display)))
      ensures displays.inUse == old(displays.inUse) - {display}
      ensures cdps.inUse == old(cdps.inUse) - (if cdp == None then {} else {cdp.value})
    {
      hide Alone, Placed;
      ghost var w := Now(sessions, i, Live(display, cdp));
      NoTurns(PoolsOf(), w, i);
      ReleaseTurns(PoolsOf(), w, i, [], sessions, Local(displays.inUse, cdps.inUse, Live(display, cdp)), display, cdp);
      assert [] + Releases(cdp) == Releases(cdp);
      displays.ReleaseNumber(display);
      if cdp.Some? {
        cdps.ReleaseNumber(cdp.value);
      }
    }
  }
}
