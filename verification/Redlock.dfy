/** The quorum lock over independent Redis pools as a state machine.

    One step is one pool command, one reading of the clock or one change of program point of one
    Mutex; time and key expiry are steps of the environment.  Every interleaving of the steps of
    any number of Mutexes over any number of pools is a run. */
module Redlock {

  // Times and durations are in nanoseconds.
  const MILLISECOND := 1_000_000

  /** The settings of one Mutex. */
  datatype Settings = Settings(expiry: int, factor: real, tries: int)
  {
    // time.Duration(int64(float64(expiry) * factor)): the conversion truncates toward zero.
    function Drift(): int {
      var product := expiry as real * factor;
      if product >= 0.0 then product.Floor else -(-product).Floor
    }

    // Redis receives the expiry in whole milliseconds and refuses a time that is not positive.
    function Lease(): int {
      if expiry < MILLISECOND then 0 else expiry - expiry % MILLISECOND
    }

    // How long after the start of a round its deadline lies when no time passes within the round.
    function Validity(): int {
      expiry - Drift() + 2 * MILLISECOND
    }
  }

  /** Mutexes sharing one name over the same pools.  A pool's clock may run fast and let a key go
      up to `skew` before its expiry; how late it lets it go is not bounded. */
  datatype System = System(pools: nat, skew: nat, mutexes: seq<Settings>)
  {
    function Quorum(): nat { pools / 2 + 1 }
  }

  // What a pool stores under the name of the lock.
  datatype Cell = Free | Held(value: string, expireAt: int)

  /** The program point of a Mutex, with the local variables that are live there.  `won` and
      `touched` are the pools that `n` counts, `missed` the pools that did not run the release. */
  datatype Phase =
    | Idle
    | Waiting(value: string, round: nat, missed: set<nat>)
    | Acquiring(value: string, round: nat, start: int, next: nat, n: nat, won: set<nat>)
    | Computing(value: string, round: nat, start: int, n: nat, won: set<nat>, read: int)
    | Deciding(value: string, round: nat, start: int, n: nat, won: set<nat>, until: int)
    | Releasing(value: string, round: nat, next: nat, missed: set<nat>)
    | Unlocking(next: nat, n: nat, missed: set<nat>)
    | Extending(start: int, next: nat, n: nat, touched: set<nat>)
  {
    predicate Locking() { !Idle? && !Unlocking? && !Extending? }
  }

  // The fields of a Mutex that its methods assign, and its program point.
  datatype Client = Client(value: string, until: int, phase: Phase)

  /** A promise made to a caller at time `from` to hold the lock before `until`: Lock returned nil,
      or (`extension`) Extend returned true.  `pools` are the pools whose replies were counted. */
  datatype Claim = Claim(owner: nat, value: string, from: int, until: int, extension: bool, pools: set<nat>)

  // A Lock that returned ErrFailed, and the pools on which its last release did not run.
  datatype Failure = Failure(value: string, missed: set<nat>)

  /** `issued` records which Mutex generated a value, `unlocked` when the first Unlock of a value
      started, `claims` and `failures` what the callers were told. */
  datatype State = State(
    now: int,
    cells: seq<Cell>,
    clients: seq<Client>,
    issued: map<string, nat>,
    unlocked: map<string, int>,
    claims: seq<Claim>,
    failures: seq<Failure>)

  /** What a Mutex does next.  `ran` says whether a pool executed the command, `heard` whether its
      reply arrived. */
  datatype Action =
    | BeginLock(value: string)
    | StartRound
    | Acquire(ran: bool, heard: bool)
    | ReadClock
    | ComputeUntil
    | Decide
    | Release(ran: bool)
    | EndRound
    | GiveUp
    | BeginUnlock
    | UnlockRelease(ran: bool, heard: bool)
    | EndUnlock
    | BeginExtend
    | Touch(ran: bool, heard: bool)
    | EndExtend

  datatype Step = Tick(to: int) | Expire(pool: nat) | Do(c: nat, action: Action)

  function Init(sys: System): State {
    State(0, seq(sys.pools, _ => Free), seq(|sys.mutexes|, _ => Client("", 0, Idle)), map[], map[], [], [])
  }

  // -------------------------------------------------------------------------------- Pool commands

  // SET name value NX PX lease
  function SetIfFree(cell: Cell, value: string, now: int, lease: int): Cell {
    if cell.Free? && lease > 0 then Held(value, now + lease) else cell
  }

  // deleteScript
  function DeleteIfEqual(cell: Cell, value: string): Cell {
    if cell.Held? && cell.value == value then Free else cell
  }

  // touchScript
  function TouchIfEqual(cell: Cell, value: string, now: int, lease: int): Cell {
    if cell.Held? && cell.value == value && lease > 0 then Held(value, now + lease) else cell
  }

  // -------------------------------------------------------------------------------- Steps

  predicate Fits(sys: System, s: State) {
    |s.cells| == sys.pools && |s.clients| == |sys.mutexes|
  }

  predicate CanAct(sys: System, s: State, c: nat, action: Action)
    requires Fits(sys, s) && c < |s.clients|
  {
    var phase := s.clients[c].phase;
    match action
    case BeginLock(value) => phase.Idle? && value != "" && value !in s.issued
    case StartRound => phase.Waiting? && phase.round < sys.mutexes[c].tries
    case GiveUp => phase.Waiting? && phase.round >= sys.mutexes[c].tries
    case Acquire(_, _) => phase.Acquiring? && phase.next < sys.pools
    case ReadClock => phase.Acquiring? && phase.next == sys.pools
    case ComputeUntil => phase.Computing?
    case Decide => phase.Deciding?
    case Release(_) => phase.Releasing? && phase.next < sys.pools
    case EndRound => phase.Releasing? && phase.next == sys.pools
    case BeginUnlock => phase.Idle?
    case UnlockRelease(_, _) => phase.Unlocking? && phase.next < sys.pools
    case EndUnlock => phase.Unlocking? && phase.next == sys.pools
    case BeginExtend => phase.Idle?
    case Touch(_, _) => phase.Extending? && phase.next < sys.pools
    case EndExtend => phase.Extending? && phase.next == sys.pools
  }

  predicate Enabled(sys: System, s: State, step: Step)
    requires Fits(sys, s)
  {
    match step
    case Tick(to) => s.now <= to
    case Expire(pool) => pool < sys.pools && s.cells[pool].Held? && s.cells[pool].expireAt <= s.now + sys.skew
    case Do(c, action) => c < |s.clients| && CanAct(sys, s, c, action)
  }

  function SetPhase(s: State, c: nat, phase: Phase): State
    requires c < |s.clients|
  {
    s.(clients := s.clients[c := s.clients[c].(phase := phase)])
  }

  function SetCell(s: State, pool: nat, cell: Cell): State
    requires pool < |s.cells|
  {
    s.(cells := s.cells[pool := cell])
  }

  function Act(sys: System, s: State, c: nat, action: Action): State
    requires Fits(sys, s) && c < |s.clients| && CanAct(sys, s, c, action)
  {
    var me := s.clients[c];
    var phase := me.phase;
    var my := sys.mutexes[c];
    match action
    case BeginLock(value) =>
      SetPhase(s, c, Waiting(value, 0, {})).(issued := s.issued[value := c])
    case StartRound =>
      SetPhase(s, c, Acquiring(phase.value, phase.round, s.now, 0, 0, {}))
    case GiveUp =>
      SetPhase(s, c, Idle).(failures := s.failures + [Failure(phase.value, phase.missed)])
    case Acquire(ran, heard) =>
      var cell := s.cells[phase.next];
      var cell' := if ran then SetIfFree(cell, phase.value, s.now, my.Lease()) else cell;
      var ok := cell' != cell && heard;
      SetCell(SetPhase(s, c, Acquiring(
        phase.value,
        phase.round,
        phase.start,
        phase.next + 1,
        if ok then phase.n + 1 else phase.n,
        if ok then phase.won + {phase.next} else phase.won)),
        phase.next, cell')
    case ReadClock =>
      SetPhase(s, c, Computing(phase.value, phase.round, phase.start, phase.n, phase.won, s.now))
    case ComputeUntil =>
      var until := phase.read + (my.expiry - (s.now - phase.start) - my.Drift() + 2 * MILLISECOND);
      SetPhase(s, c, Deciding(phase.value, phase.round, phase.start, phase.n, phase.won, until))
    case Decide =>
      if phase.n >= sys.Quorum() && s.now < phase.until then
        s.(clients := s.clients[c := Client(phase.value, phase.until, Idle)],
           claims := s.claims + [Claim(c, phase.value, s.now, phase.until, false, phase.won)])
      else
        SetPhase(s, c, Releasing(phase.value, phase.round, 0, {}))
    case Release(ran) =>
      var cell := s.cells[phase.next];
      SetCell(SetPhase(s, c, Releasing(
        phase.value,
        phase.round,
        phase.next + 1,
        if ran then phase.missed else phase.missed + {phase.next})),
        phase.next, if ran then DeleteIfEqual(cell, phase.value) else cell)
    case EndRound =>
      SetPhase(s, c, Waiting(phase.value, phase.round + 1, phase.missed))
    case BeginUnlock =>
      SetPhase(s, c, Unlocking(0, 0, {}))
      .(unlocked := if me.value in s.unlocked then s.unlocked else s.unlocked[me.value := s.now])
    case UnlockRelease(ran, heard) =>
      // The script's integer reply never equals the untyped 0 it is compared with, so every
      // script that ran and was heard counts.
      var cell := s.cells[phase.next];
      SetCell(SetPhase(s, c, Unlocking(
        phase.next + 1,
        if ran && heard then phase.n + 1 else phase.n,
        if ran then phase.missed else phase.missed + {phase.next})),
        phase.next, if ran then DeleteIfEqual(cell, me.value) else cell)
    case EndUnlock => SetPhase(s, c, Idle)
    case BeginExtend => SetPhase(s, c, Extending(s.now, 0, 0, {}))
    case Touch(ran, heard) =>
      var cell := s.cells[phase.next];
      var ok := ran && heard && cell.Held? && cell.value == me.value && my.Lease() > 0;
      SetCell(SetPhase(s, c, Extending(
        phase.start,
        phase.next + 1,
        if ok then phase.n + 1 else phase.n,
        if ok then phase.touched + {phase.next} else phase.touched)),
        phase.next, if ran then TouchIfEqual(cell, me.value, s.now, my.Lease()) else cell)
    case EndExtend =>
      var s' := SetPhase(s, c, Idle);
      if phase.n >= sys.Quorum() then
        s'.(claims := s.claims + [Claim(c, me.value, s.now, phase.start + my.Lease() - sys.skew, true, phase.touched)])
      else s'
  }

  function Apply(sys: System, s: State, step: Step): (s': State)
    requires Fits(sys, s) && Enabled(sys, s, step)
  {
    match step
    case Tick(to) => s.(now := to)
    case Expire(pool) => SetCell(s, pool, Free)
    case Do(c, action) => Act(sys, s, c, action)
  }

  // -------------------------------------------------------------------------------- Runs

  function Exec(sys: System, steps: seq<Step>): (r: (bool, State))
    ensures Fits(sys, r.1)
  {
    if steps == [] then (true, Init(sys))
    else
      var (ok, s) := Exec(sys, steps[..|steps| - 1]);
      var step := steps[|steps| - 1];
      if ok && Enabled(sys, s, step) then (true, Apply(sys, s, step)) else (false, s)
  }

  ghost predicate Reachable(sys: System, s: State) {
    exists steps :: Exec(sys, steps) == (true, s)
  }
}
