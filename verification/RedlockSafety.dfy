/** Safety of the quorum lock over every run: at most one value is promised at any time. */
module RedlockSafety {
  import opened Redlock

  // -------------------------------------------------------------------------------- Statements

  // The end of a promise: its deadline, or the start of the first Unlock of its value.
  function End(s: State, claim: Claim): int {
    if claim.value in s.unlocked && s.unlocked[claim.value] < claim.until
    then s.unlocked[claim.value]
    else claim.until
  }

  predicate HoldsAt(s: State, claim: Claim, t: int) {
    claim.from <= t < End(s, claim)
  }

  /** Two promises that hold at one time are promises of one value, and Lock succeeds at most once
      with a value. */
  ghost predicate Exclusive(s: State) {
    && (forall i, j, t :: 0 <= i < |s.claims| && 0 <= j < |s.claims|
          && HoldsAt(s, s.claims[i], t) && HoldsAt(s, s.claims[j], t)
          ==> s.claims[i].value == s.claims[j].value && s.claims[i].owner == s.claims[j].owner)
    && (forall i, j :: 0 <= i < j < |s.claims| && !s.claims[i].extension && !s.claims[j].extension
          ==> s.claims[i].value != s.claims[j].value)
  }

  // A later promise starts after an earlier one of another value has ended, unless it is an
  // extension that had itself ended when Extend returned.
  predicate InOrder(s: State, a: Claim, b: Claim) {
    && (a.value == b.value || End(s, a) <= b.from || (b.extension && End(s, b) <= b.from))
    && (a.extension || b.extension || a.value != b.value)
  }

  ghost predicate Ordered(s: State) {
    forall i, j :: 0 <= i < j < |s.claims| ==> InOrder(s, s.claims[i], s.claims[j])
  }

  // The settings with which Lock can ever return nil.
  predicate CanSucceed(sys: System, my: Settings) {
    sys.pools > 0 && my.tries > 0 && my.Lease() > 0 && my.Validity() > 0
  }

  // The drift allowance covers the 2ms that the deadline adds, the part of the expiry that is not
  // a whole millisecond, and the skew of the pools' clocks.
  predicate DriftCovers(sys: System, my: Settings) {
    my.Drift() >= 2 * MILLISECOND + my.expiry % MILLISECOND + sys.skew
  }

  ghost predicate Sound(sys: System) {
    forall c :: 0 <= c < |sys.mutexes| && CanSucceed(sys, sys.mutexes[c]) ==> DriftCovers(sys, sys.mutexes[c])
  }

  // -------------------------------------------------------------------------------- Invariants

  predicate HoldsUntil(cell: Cell, value: string, e: int) {
    cell.Held? && cell.value == value && cell.expireAt >= e
  }

  // The pools in `pools` keep `value` until time e, or time e has come.
  ghost predicate Kept(sys: System, s: State, value: string, e: int, pools: set<nat>) {
    s.now + sys.skew >= e || forall p :: p in pools ==> p < |s.cells| && HoldsUntil(s.cells[p], value, e)
  }

  predicate Counts(pools: set<nat>, n: nat, next: nat, bound: nat) {
    n == |pools| && next <= bound && forall p :: p in pools ==> p < next
  }

  ghost predicate Gone(s: State, value: string, missed: set<nat>, next: nat) {
    forall p :: 0 <= p < next && p < |s.cells| && p !in missed ==> !HoldsValue(s.cells[p], value)
  }

  predicate HoldsValue(cell: Cell, value: string) { cell.Held? && cell.value == value }

  // A value that its Mutex is trying to lock with: not yet promised, not a field of any Mutex.
  ghost predicate Trying(s: State, c: nat, value: string)
    requires c < |s.clients|
  {
    && value in s.issued && s.issued[value] == c
    && value != s.clients[c].value
    && value !in s.unlocked
    && (forall i :: 0 <= i < |s.claims| ==> s.claims[i].value != value)
    && (forall i :: 0 <= i < |s.failures| ==> s.failures[i].value != value)
  }

  ghost predicate PhaseInv(sys: System, s: State, c: nat)
    requires Fits(sys, s) && c < |s.clients|
  {
    var me := s.clients[c];
    var my := sys.mutexes[c];
    match me.phase
    case Idle => true
    case Waiting(value, round, missed) =>
      Trying(s, c, value) && Gone(s, value, missed, sys.pools)
    case Acquiring(value, round, start, next, n, won) =>
      Trying(s, c, value) && round < my.tries && start <= s.now && Counts(won, n, next, sys.pools)
      && Kept(sys, s, value, start + my.Lease(), won) && (n > 0 ==> my.Lease() > 0)
    case Computing(value, round, start, n, won, read) =>
      Trying(s, c, value) && round < my.tries && start <= read <= s.now && Counts(won, n, sys.pools, sys.pools)
      && Kept(sys, s, value, start + my.Lease(), won) && (n > 0 ==> my.Lease() > 0)
    case Deciding(value, round, start, n, won, until) =>
      Trying(s, c, value) && round < my.tries && start <= s.now && Counts(won, n, sys.pools, sys.pools)
      && Kept(sys, s, value, start + my.Lease(), won) && (n > 0 ==> my.Lease() > 0)
      && until <= start + my.Validity()
    case Releasing(value, round, next, missed) =>
      Trying(s, c, value) && next <= sys.pools && Gone(s, value, missed, next)
    case Unlocking(next, n, missed) =>
      me.value in s.unlocked && next <= sys.pools && n + |missed| <= next && Gone(s, me.value, missed, next)
    case Extending(start, next, n, touched) =>
      start <= s.now && Counts(touched, n, next, sys.pools) && (n > 0 ==> me.value != "")
      && (me.value !in s.unlocked ==> Kept(sys, s, me.value, start + my.Lease(), touched))
  }

  ghost predicate ClientInv(sys: System, s: State)
    requires Fits(sys, s)
  {
    && "" !in s.issued
    && (forall c :: 0 <= c < |s.clients| ==> PhaseInv(sys, s, c))
    && (forall c :: 0 <= c < |s.clients| && s.clients[c].value != ""
          ==> s.clients[c].value in s.issued && s.issued[s.clients[c].value] == c)
    && (forall v :: v in s.issued ==> s.issued[v] < |sys.mutexes|)
  }

  // What a pool stores was issued and does not last longer than a command run now would make it.
  ghost predicate CellInv(sys: System, s: State)
    requires Fits(sys, s)
  {
    forall p :: 0 <= p < |s.cells| && s.cells[p].Held? ==>
      var v := s.cells[p].value;
      v in s.issued && s.issued[v] < |sys.mutexes| && s.cells[p].expireAt <= s.now + sys.mutexes[s.issued[v]].Lease()
  }

  ghost predicate ClaimInv(sys: System, s: State, claim: Claim) {
    && claim.value in s.issued && s.issued[claim.value] == claim.owner
    && claim.from <= s.now
    && |claim.pools| >= sys.Quorum()
    && (forall p :: p in claim.pools ==> p < sys.pools)
  }

  ghost predicate ClaimsInv(sys: System, s: State) {
    && (forall i :: 0 <= i < |s.claims| ==> ClaimInv(sys, s, s.claims[i]))
    && (forall v :: v in s.unlocked ==> s.unlocked[v] <= s.now && (v == "" || v in s.issued))
  }

  ghost predicate Backed(sys: System, s: State, claim: Claim) {
    claim.value in s.unlocked || Kept(sys, s, claim.value, claim.until + sys.skew, claim.pools)
  }

  /** The lease: until a promise ends, the quorum of pools that made it stores the value, and will
      keep it until the promise ends. */
  ghost predicate Leased(sys: System, s: State) {
    forall i :: 0 <= i < |s.claims| ==> Backed(sys, s, s.claims[i])
  }

  // A failed Lock left its value only on pools that did not run its last release.
  ghost predicate Failed(sys: System, s: State, f: Failure) {
    && f.value in s.issued
    && (forall c :: 0 <= c < |s.clients| ==> s.clients[c].value != f.value)
    && Gone(s, f.value, f.missed, sys.pools)
  }

  ghost predicate FailureInv(sys: System, s: State)
    requires Fits(sys, s)
  {
    forall i :: 0 <= i < |s.failures| ==> Failed(sys, s, s.failures[i])
  }

  ghost predicate Inv(sys: System, s: State) {
    Fits(sys, s) && CellInv(sys, s) && ClientInv(sys, s) && ClaimsInv(sys, s) && FailureInv(sys, s)
  }

  // -------------------------------------------------------------------------------- One step

  // The value whose keys an action may delete.
  function Dropped(s: State, c: nat, action: Action): string
    requires c < |s.clients|
  {
    match action
    case Release(_) => if s.clients[c].phase.Releasing? then s.clients[c].phase.value else ""
    case UnlockRelease(_, _) => s.clients[c].value
    case _ => ""
  }

  // What a step does to one pool.
  function CellAfter(sys: System, s: State, step: Step, p: nat): Cell
    requires Fits(sys, s) && Enabled(sys, s, step) && p < |s.cells|
  {
    var cell := s.cells[p];
    match step
    case Tick(_) => cell
    case Expire(pool) => if p == pool then Free else cell
    case Do(c, action) =>
      var me := s.clients[c];
      var lease := sys.mutexes[c].Lease();
      match action
      case Acquire(ran, _) => if ran && p == me.phase.next then SetIfFree(cell, me.phase.value, s.now, lease) else cell
      case Release(ran) => if ran && p == me.phase.next then DeleteIfEqual(cell, me.phase.value) else cell
      case UnlockRelease(ran, _) => if ran && p == me.phase.next then DeleteIfEqual(cell, me.value) else cell
      case Touch(ran, _) => if ran && p == me.phase.next then TouchIfEqual(cell, me.value, s.now, lease) else cell
      case _ => cell
  }

  predicate Commands(action: Action) {
    action.Acquire? || action.Release? || action.UnlockRelease? || action.Touch?
  }

  lemma FitsAfter(sys: System, s: State, step: Step)
    requires Fits(sys, s) && Enabled(sys, s, step)
    ensures Fits(sys, Apply(sys, s, step))
  {
  }

  // Only a command changes a pool.
  lemma NoCommand(sys: System, s: State, c: nat, action: Action)
    requires Fits(sys, s) && c < |s.clients| && CanAct(sys, s, c, action) && !Commands(action)
    ensures Act(sys, s, c, action).cells == s.cells
  {
  }

  lemma CellsAfter(sys: System, s: State, step: Step)
    requires Fits(sys, s) && Enabled(sys, s, step)
    ensures Fits(sys, Apply(sys, s, step))
    ensures forall p :: 0 <= p < |s.cells| ==> Apply(sys, s, step).cells[p] == CellAfter(sys, s, step, p)
  {
    FitsAfter(sys, s, step);
    if step.Do? && !Commands(step.action) {
      hide Act, CanAct;
      NoCommand(sys, s, step.c, step.action);
    } else {
      hide SetIfFree, DeleteIfEqual, TouchIfEqual;
    }
  }

  // The values that a Mutex holds or tries to lock with.
  predicate Own(s: State, c: nat, value: string)
    requires c < |s.clients|
  {
    value == s.clients[c].value || (s.clients[c].phase.Locking() && value == s.clients[c].phase.value)
  }

  ghost predicate SameOthers(s: State, step: Step, s': State) {
    && |s'.clients| == |s.clients| && s.now <= s'.now
    && forall d :: 0 <= d < |s.clients| && (step.Do? ==> d != step.c) ==> s'.clients[d] == s.clients[d]
  }

  ghost predicate IssuedGrows(s: State, step: Step, s': State) {
    && (forall v :: v in s.issued ==> v in s'.issued && s'.issued[v] == s.issued[v])
    && (forall v :: v in s'.issued && v !in s.issued ==> step.Do? && s'.issued[v] == step.c && v != "")
  }

  ghost predicate UnlockedGrows(s: State, step: Step, s': State)
    requires step.Do? ==> step.c < |s.clients|
  {
    && (forall v :: v in s.unlocked ==> v in s'.unlocked && s'.unlocked[v] == s.unlocked[v])
    && (forall v :: v in s'.unlocked && v !in s.unlocked ==>
          step.Do? && v == s.clients[step.c].value && s'.unlocked[v] == s'.now)
  }

  ghost predicate ClaimsAppend(s: State, step: Step, s': State)
    requires step.Do? ==> step.c < |s.clients|
  {
    && |s.claims| <= |s'.claims| && s'.claims[..|s.claims|] == s.claims
    && (forall i :: |s.claims| <= i < |s'.claims| ==>
          step.Do? && Own(s, step.c, s'.claims[i].value) && s'.claims[i].owner == step.c)
  }

  ghost predicate FailuresAppend(s: State, step: Step, s': State)
    requires step.Do? ==> step.c < |s.clients|
  {
    && |s.failures| <= |s'.failures| && s'.failures[..|s.failures|] == s.failures
    && (forall i :: |s.failures| <= i < |s'.failures| ==> step.Do? && Own(s, step.c, s'.failures[i].value))
  }

  // A step changes no other Mutex, forgets nothing and notes only values of its own Mutex.
  ghost predicate Recorded(s: State, step: Step, s': State)
    requires step.Do? ==> step.c < |s.clients|
  {
    && SameOthers(s, step, s') && IssuedGrows(s, step, s') && UnlockedGrows(s, step, s')
    && ClaimsAppend(s, step, s') && FailuresAppend(s, step, s')
  }

  lemma OthersAfter(sys: System, s: State, step: Step)
    requires Fits(sys, s) && Enabled(sys, s, step)
    ensures SameOthers(s, step, Apply(sys, s, step))
  {
  }

  lemma IssuedAfter(sys: System, s: State, step: Step)
    requires Fits(sys, s) && Enabled(sys, s, step)
    ensures IssuedGrows(s, step, Apply(sys, s, step))
  {
  }

  lemma UnlockedAfter(sys: System, s: State, step: Step)
    requires Fits(sys, s) && Enabled(sys, s, step)
    ensures UnlockedGrows(s, step, Apply(sys, s, step))
  {
  }

  lemma ClaimsAfter(sys: System, s: State, step: Step)
    requires Fits(sys, s) && Enabled(sys, s, step)
    ensures ClaimsAppend(s, step, Apply(sys, s, step))
  {
  }

  lemma FailuresAfter(sys: System, s: State, step: Step)
    requires Fits(sys, s) && Enabled(sys, s, step)
    ensures FailuresAppend(s, step, Apply(sys, s, step))
  {
  }

  lemma RecordsAfter(sys: System, s: State, step: Step)
    requires Fits(sys, s) && Enabled(sys, s, step)
    ensures Recorded(s, step, Apply(sys, s, step))
  {
    hide SameOthers, IssuedGrows, UnlockedGrows, ClaimsAppend, FailuresAppend, Apply;
    OthersAfter(sys, s, step);
    IssuedAfter(sys, s, step);
    UnlockedAfter(sys, s, step);
    ClaimsAfter(sys, s, step);
    FailuresAfter(sys, s, step);
  }

  lemma ActorExists(sys: System, s: State, step: Step)
    requires Fits(sys, s) && Enabled(sys, s, step)
    ensures step.Do? ==> step.c < |s.clients|
  {
  }

  lemma OwnIsIssued(sys: System, s: State, c: nat, value: string)
    requires Fits(sys, s) && ClientInv(sys, s) && c < |s.clients| && Own(s, c, value)
    ensures value == "" || (value in s.issued && s.issued[value] == c)
  {
    assert PhaseInv(sys, s, c);
  }

  lemma PhaseHolds(sys: System, s: State, c: nat)
    requires Inv(sys, s) && c < |s.clients|
    ensures PhaseInv(sys, s, c)
  {
  }

  lemma CellIsKept(sys: System, s: State, step: Step, p: nat, value: string, e: int)
    requires Fits(sys, s) && CellInv(sys, s) && ClientInv(sys, s) && Enabled(sys, s, step) && p < |s.cells|
    requires HoldsUntil(s.cells[p], value, e) && s.now + sys.skew < e
    requires step.Do? ==> Dropped(s, step.c, step.action) == "" || Dropped(s, step.c, step.action) != value
    ensures HoldsUntil(CellAfter(sys, s, step, p), value, e)
  {
    if step.Do? {
      OwnIsIssued(sys, s, step.c, s.clients[step.c].value);
      hide PhaseInv;
    }
  }

  /** No step takes a pool's key away from a value before its time, except a release of that very
      value; in particular a touch never shortens an expiry. */
  lemma KeptStep(sys: System, s: State, step: Step, value: string, e: int, pools: set<nat>)
    requires Fits(sys, s) && CellInv(sys, s) && ClientInv(sys, s) && Enabled(sys, s, step)
    requires Kept(sys, s, value, e, pools)
    requires step.Do? ==> Dropped(s, step.c, step.action) == "" || Dropped(s, step.c, step.action) != value
    ensures Kept(sys, Apply(sys, s, step), value, e, pools)
  {
    hide Act, PhaseInv, CellAfter, ClientInv, CellInv, CanAct, Dropped;
    CellsAfter(sys, s, step);
    RecordsAfter(sys, s, step);
    if s.now + sys.skew < e {
      forall p | p in pools ensures HoldsUntil(CellAfter(sys, s, step, p), value, e) {
        CellIsKept(sys, s, step, p, value, e);
      }
    }
  }

  // A command leaves a key of an issued value, and lets it last no longer than one run now.
  lemma CellStep(sys: System, s: State, step: Step)
    requires Fits(sys, s) && CellInv(sys, s) && ClientInv(sys, s) && Enabled(sys, s, step)
    ensures CellInv(sys, Apply(sys, s, step))
  {
    CellsAfter(sys, s, step);
    RecordsAfter(sys, s, step);
    if step.Do? {
      OwnIsIssued(sys, s, step.c, s.clients[step.c].value);
      assert PhaseInv(sys, s, step.c);
      assert s.clients[step.c].phase.Locking() ==> Own(s, step.c, s.clients[step.c].phase.value);
    }
    hide Act, PhaseInv;
  }

  /** A value does not come back to a pool unless a Mutex trying it acquires it there. */
  lemma GoneStep(sys: System, s: State, step: Step, value: string, missed: set<nat>, next: nat)
    requires Fits(sys, s) && Enabled(sys, s, step) && Gone(s, value, missed, next)
    requires step.Do? && step.action.Acquire? ==> s.clients[step.c].phase.value != value
    ensures Gone(Apply(sys, s, step), value, missed, next)
  {
    CellsAfter(sys, s, step);
    hide Act;
  }

  lemma TryingStep(sys: System, s: State, step: Step, c: nat, value: string)
    requires Inv(sys, s) && Enabled(sys, s, step) && c < |s.clients| && Trying(s, c, value)
    requires step.Do? ==> step.c != c
    ensures Trying(Apply(sys, s, step), c, value)
  {
    RecordsAfter(sys, s, step);
    if step.Do? {
      forall v | Own(s, step.c, v) ensures v != value {
        OwnIsIssued(sys, s, step.c, v);
      }
      assert Own(s, step.c, s.clients[step.c].value);
    }
    hide Act, PhaseInv, Own, CanAct, Inv;
  }

  // What the program point of a Mutex needs of the rest of the state.
  ghost predicate Carries(sys: System, s: State, s': State, c: nat)
    requires Fits(sys, s) && Fits(sys, s') && c < |s.clients|
  {
    var me := s.clients[c];
    match me.phase
    case Idle => true
    case Waiting(value, _, missed) =>
      Trying(s', c, value) && Gone(s', value, missed, sys.pools)
    case Acquiring(value, _, start, _, _, won) =>
      Trying(s', c, value) && Kept(sys, s', value, start + sys.mutexes[c].Lease(), won)
    case Computing(value, _, start, _, won, _) =>
      Trying(s', c, value) && Kept(sys, s', value, start + sys.mutexes[c].Lease(), won)
    case Deciding(value, _, start, _, won, _) =>
      Trying(s', c, value) && Kept(sys, s', value, start + sys.mutexes[c].Lease(), won)
    case Releasing(value, _, next, missed) =>
      Trying(s', c, value) && Gone(s', value, missed, next)
    case Unlocking(next, _, missed) => me.value in s'.unlocked && Gone(s', me.value, missed, next)
    case Extending(start, _, _, touched) =>
      me.value in s'.unlocked || Kept(sys, s', me.value, start + sys.mutexes[c].Lease(), touched)
  }

  lemma PhaseCarries(sys: System, s: State, s': State, c: nat)
    requires Fits(sys, s) && Fits(sys, s') && c < |s.clients| && PhaseInv(sys, s, c)
    requires s'.clients[c] == s.clients[c] && s.now <= s'.now && Carries(sys, s, s', c)
    ensures PhaseInv(sys, s', c)
  {
  }

  // Other Mutexes neither delete nor acquire a value that this one tries or holds.
  lemma OthersLeaveAlone(sys: System, s: State, step: Step, c: nat, value: string)
    requires Inv(sys, s) && Enabled(sys, s, step) && c < |s.clients|
    requires value in s.issued ==> s.issued[value] == c
    requires step.Do? && step.c != c
    ensures Dropped(s, step.c, step.action) == "" || Dropped(s, step.c, step.action) != value
    ensures step.action.Acquire? ==> s.clients[step.c].phase.value != value
  {
    PhaseHolds(sys, s, step.c);
    OwnIsIssued(sys, s, step.c, s.clients[step.c].value);
    if s.clients[step.c].phase.Locking() {
      OwnIsIssued(sys, s, step.c, s.clients[step.c].phase.value);
    }
    assert "" !in s.issued;
  }

  // The step of one Mutex keeps what holds at the program point of another.
  lemma OthersCarry(sys: System, s: State, step: Step, c: nat)
    requires Inv(sys, s) && Enabled(sys, s, step) && c < |s.clients|
    requires step.Do? ==> step.c != c
    ensures Carries(sys, s, Apply(sys, s, step), c)
  {
    var me := s.clients[c];
    var phase := me.phase;
    assert PhaseInv(sys, s, c);
    if phase.Locking() {
      TryingStep(sys, s, step, c, phase.value);
      if step.Do? {
        OthersLeaveAlone(sys, s, step, c, phase.value);
      }
      if phase.Waiting? || phase.Releasing? {
        GoneStep(sys, s, step, phase.value, phase.missed, if phase.Waiting? then sys.pools else phase.next);
      } else {
        KeptStep(sys, s, step, phase.value, phase.start + sys.mutexes[c].Lease(), phase.won);
      }
    } else if phase.Unlocking? {
      if step.Do? {
        OthersLeaveAlone(sys, s, step, c, me.value);
      }
      GoneStep(sys, s, step, me.value, phase.missed, phase.next);
    } else if phase.Extending? && me.value !in s.unlocked {
      if step.Do? {
        OthersLeaveAlone(sys, s, step, c, me.value);
      }
      KeptStep(sys, s, step, me.value, phase.start + sys.mutexes[c].Lease(), phase.touched);
    }
  }

  lemma OthersStep(sys: System, s: State, step: Step, c: nat)
    requires Inv(sys, s) && Enabled(sys, s, step) && c < |s.clients|
    requires step.Do? ==> step.c != c
    ensures Fits(sys, Apply(sys, s, step)) && PhaseInv(sys, Apply(sys, s, step), c)
  {
    hide Act, PhaseInv, CanAct, Carries;
    CellsAfter(sys, s, step);
    RecordsAfter(sys, s, step);
    PhaseHolds(sys, s, c);
    OthersCarry(sys, s, step, c);
    PhaseCarries(sys, s, Apply(sys, s, step), c);
  }

  lemma OwnAcquire(sys: System, s: State, c: nat, ran: bool, heard: bool)
    requires Inv(sys, s) && c < |s.clients| && CanAct(sys, s, c, Acquire(ran, heard))
    ensures PhaseInv(sys, Act(sys, s, c, Acquire(ran, heard)), c)
  {
    var phase := s.clients[c].phase;
    assert PhaseInv(sys, s, c);
    KeptStep(sys, s, Do(c, Acquire(ran, heard)), phase.value, phase.start + sys.mutexes[c].Lease(), phase.won);
  }

  lemma OwnTouch(sys: System, s: State, c: nat, ran: bool, heard: bool)
    requires Inv(sys, s) && c < |s.clients| && CanAct(sys, s, c, Touch(ran, heard))
    ensures PhaseInv(sys, Act(sys, s, c, Touch(ran, heard)), c)
  {
    var me := s.clients[c];
    assert PhaseInv(sys, s, c);
    if me.value !in s.unlocked {
      KeptStep(sys, s, Do(c, Touch(ran, heard)), me.value, me.phase.start + sys.mutexes[c].Lease(), me.phase.touched);
    }
  }

  lemma OwnRelease(sys: System, s: State, c: nat, ran: bool)
    requires Inv(sys, s) && c < |s.clients| && CanAct(sys, s, c, Release(ran))
    ensures PhaseInv(sys, Act(sys, s, c, Release(ran)), c)
  {
    assert PhaseInv(sys, s, c);
  }

  lemma OwnUnlockRelease(sys: System, s: State, c: nat, ran: bool, heard: bool)
    requires Inv(sys, s) && c < |s.clients| && CanAct(sys, s, c, UnlockRelease(ran, heard))
    ensures PhaseInv(sys, Act(sys, s, c, UnlockRelease(ran, heard)), c)
  {
    assert PhaseInv(sys, s, c);
  }

  // The steps by which a call starts.
  lemma OwnBegin(sys: System, s: State, c: nat, action: Action)
    requires Inv(sys, s) && c < |s.clients| && CanAct(sys, s, c, action)
    requires action.BeginLock? || action.BeginUnlock? || action.BeginExtend?
    ensures PhaseInv(sys, Act(sys, s, c, action), c)
  {
    PhaseHolds(sys, s, c);
  }

  // The steps of a round of Lock that touch no pool.
  lemma OwnRound(sys: System, s: State, c: nat, action: Action)
    requires Inv(sys, s) && c < |s.clients| && CanAct(sys, s, c, action)
    requires action.StartRound? || action.ReadClock? || action.ComputeUntil? || action.Decide? || action.EndRound?
    ensures PhaseInv(sys, Act(sys, s, c, action), c)
  {
    PhaseHolds(sys, s, c);
  }

  lemma OwnStep(sys: System, s: State, c: nat, action: Action)
    requires Inv(sys, s) && c < |s.clients| && CanAct(sys, s, c, action)
    ensures Fits(sys, Act(sys, s, c, action)) && PhaseInv(sys, Act(sys, s, c, action), c)
  {
    CellsAfter(sys, s, Do(c, action));
    RecordsAfter(sys, s, Do(c, action));
    if action.GiveUp? || action.EndUnlock? || action.EndExtend? {
      assert Act(sys, s, c, action).clients[c].phase == Idle;
    } else {
      hide Act, PhaseInv, CanAct, Inv, Recorded;
      match action
      case Acquire(ran, heard) => OwnAcquire(sys, s, c, ran, heard);
      case Release(ran) => OwnRelease(sys, s, c, ran);
      case UnlockRelease(ran, heard) => OwnUnlockRelease(sys, s, c, ran, heard);
      case Touch(ran, heard) => OwnTouch(sys, s, c, ran, heard);
      case BeginLock(_) => OwnBegin(sys, s, c, action);
      case BeginUnlock => OwnBegin(sys, s, c, action);
      case BeginExtend => OwnBegin(sys, s, c, action);
      case StartRound => OwnRound(sys, s, c, action);
      case ReadClock => OwnRound(sys, s, c, action);
      case ComputeUntil => OwnRound(sys, s, c, action);
      case Decide => OwnRound(sys, s, c, action);
      case EndRound => OwnRound(sys, s, c, action);
    }
  }

  // Only Lock assigns a value to a Mutex: the one it tried.
  lemma ValueAfter(sys: System, s: State, c: nat, action: Action)
    requires Fits(sys, s) && c < |s.clients| && CanAct(sys, s, c, action)
    ensures Fits(sys, Act(sys, s, c, action)) && Own(s, c, Act(sys, s, c, action).clients[c].value)
  {
  }

  lemma ClientStep(sys: System, s: State, step: Step)
    requires Inv(sys, s) && Enabled(sys, s, step)
    ensures Fits(sys, Apply(sys, s, step)) && ClientInv(sys, Apply(sys, s, step))
  {
    hide Act, PhaseInv, CanAct, Own;
    var s' := Apply(sys, s, step);
    CellsAfter(sys, s, step);
    RecordsAfter(sys, s, step);
    forall c | 0 <= c < |s'.clients| ensures PhaseInv(sys, s', c) {
      if step.Do? && step.c == c {
        OwnStep(sys, s, c, step.action);
      } else {
        OthersStep(sys, s, step, c);
      }
    }
    if step.Do? {
      ValueAfter(sys, s, step.c, step.action);
      OwnIsIssued(sys, s, step.c, s'.clients[step.c].value);
    }
  }

  lemma OldFailure(sys: System, s: State, step: Step, f: Failure)
    requires Inv(sys, s) && Enabled(sys, s, step) && f in s.failures
    ensures Failed(sys, Apply(sys, s, step), f)
  {
    assert Failed(sys, s, f);
    RecordsAfter(sys, s, step);
    if step.Do? {
      PhaseHolds(sys, s, step.c);
      ValueAfter(sys, s, step.c, step.action);
      assert s.clients[step.c].phase.Locking() ==> Trying(s, step.c, s.clients[step.c].phase.value);
    }
    hide Act, PhaseInv, Inv, Gone;
    GoneStep(sys, s, step, f.value, f.missed, sys.pools);
  }

  lemma NewFailure(sys: System, s: State, c: nat, action: Action)
    requires Inv(sys, s) && c < |s.clients| && CanAct(sys, s, c, action)
    ensures var s' := Act(sys, s, c, action);
      s'.failures == s.failures
      || (|s'.failures| == |s.failures| + 1 && Failed(sys, s', s'.failures[|s.failures|]))
  {
    PhaseHolds(sys, s, c);
    if action.GiveUp? {
      forall d | 0 <= d < |s.clients| ensures s.clients[d].value != s.clients[c].phase.value {
        OwnIsIssued(sys, s, d, s.clients[d].value);
      }
    }
  }

  lemma FailureStep(sys: System, s: State, step: Step)
    requires Inv(sys, s) && Enabled(sys, s, step)
    ensures Fits(sys, Apply(sys, s, step)) && FailureInv(sys, Apply(sys, s, step))
  {
    assert Fits(sys, s) && FailureInv(sys, s);
    hide Act, PhaseInv, Inv, Gone, CanAct;
    FitsAfter(sys, s, step);
    RecordsAfter(sys, s, step);
    var s' := Apply(sys, s, step);
    forall i | 0 <= i < |s.failures| ensures Failed(sys, s', s.failures[i]) {
      OldFailure(sys, s, step, s.failures[i]);
    }
    if step.Do? {
      NewFailure(sys, s, step.c, step.action);
    }
  }

  lemma NewClaim(sys: System, s: State, c: nat, action: Action)
    requires Inv(sys, s) && c < |s.clients| && CanAct(sys, s, c, action)
    ensures var s' := Act(sys, s, c, action);
      s'.claims == s.claims || (|s'.claims| == |s.claims| + 1 && ClaimInv(sys, s', s'.claims[|s.claims|]))
  {
    PhaseHolds(sys, s, c);
  }

  lemma ClaimsInvStep(sys: System, s: State, step: Step)
    requires Inv(sys, s) && Enabled(sys, s, step)
    ensures ClaimsInv(sys, Apply(sys, s, step))
  {
    hide Act, PhaseInv, CanAct, CellInv, FailureInv;
    var s' := Apply(sys, s, step);
    RecordsAfter(sys, s, step);
    forall i | 0 <= i < |s.claims| ensures ClaimInv(sys, s', s.claims[i]) {
      assert ClaimInv(sys, s, s.claims[i]);
    }
    if step.Do? {
      NewClaim(sys, s, step.c, step.action);
      OwnIsIssued(sys, s, step.c, s.clients[step.c].value);
    }
  }

  lemma InvStep(sys: System, s: State, step: Step)
    requires Inv(sys, s) && Enabled(sys, s, step)
    ensures Inv(sys, Apply(sys, s, step))
  {
    CellStep(sys, s, step);
    ClientStep(sys, s, step);
    FailureStep(sys, s, step);
    ClaimsInvStep(sys, s, step);
  }

  // -------------------------------------------------------------------------------- The lease

  // The promises made before a step stay backed by their quorum.
  lemma OldLease(sys: System, s: State, step: Step)
    requires Inv(sys, s) && Enabled(sys, s, step) && Leased(sys, s)
    ensures forall i :: 0 <= i < |s.claims| ==> Backed(sys, Apply(sys, s, step), s.claims[i])
  {
    if step.Do? {
      assert PhaseInv(sys, s, step.c);
    }
    forall i | 0 <= i < |s.claims| ensures Backed(sys, Apply(sys, s, step), s.claims[i]) {
      var claim := s.claims[i];
      assert ClaimInv(sys, s, claim) && Backed(sys, s, claim);
      if claim.value !in s.unlocked {
        KeptStep(sys, s, step, claim.value, claim.until + sys.skew, claim.pools);
      }
    }
  }

  // When the drift allowance covers them, the pools keep a key past the deadline of its round.
  lemma DeadlineBeforeExpiry(sys: System, my: Settings)
    requires my.Lease() > 0 && DriftCovers(sys, my)
    ensures my.Validity() + sys.skew <= my.Lease()
  {
  }

  lemma CountsNonempty(pools: set<nat>, n: nat, next: nat, bound: nat)
    requires Counts(pools, n, next, bound) && n > 0
    ensures bound > 0
  {
    assert pools != {};
    var p :| p in pools;
  }

  // A promise made by this step is backed by a quorum.
  lemma NewLease(sys: System, s: State, c: nat, action: Action)
    requires Sound(sys) && Inv(sys, s) && c < |s.clients| && CanAct(sys, s, c, action)
    ensures var s' := Act(sys, s, c, action);
      s'.claims == s.claims || (|s'.claims| == |s.claims| + 1 && Backed(sys, s', s'.claims[|s.claims|]))
  {
    assert PhaseInv(sys, s, c);
    var phase := s.clients[c].phase;
    if action.Decide? && phase.n >= sys.Quorum() && s.now < phase.until {
      CountsNonempty(phase.won, phase.n, sys.pools, sys.pools);
      assert CanSucceed(sys, sys.mutexes[c]);
      DeadlineBeforeExpiry(sys, sys.mutexes[c]);
    }
  }

  lemma LeaseStep(sys: System, s: State, step: Step)
    requires Sound(sys) && Inv(sys, s) && Enabled(sys, s, step) && Leased(sys, s)
    ensures Leased(sys, Apply(sys, s, step))
  {
    OldLease(sys, s, step);
    if step.Do? {
      NewLease(sys, s, step.c, step.action);
      assert PhaseInv(sys, s, step.c);
    }
  }

  // -------------------------------------------------------------------------------- Exclusion

  lemma {:induction false} SubsetSize(a: set<nat>, n: nat)
    requires forall p :: p in a ==> p < n
    ensures |a| <= n
  {
    if n == 0 {
      assert a == {};
    } else {
      SubsetSize(a - {n - 1}, n - 1);
      assert a <= (a - {n - 1}) + {n - 1};
    }
  }

  /** A count reaches the quorum exactly when it is more than half of the pools. */
  lemma QuorumIsMajority(sys: System, n: nat)
    ensures n >= sys.Quorum() <==> 2 * n > sys.pools
  {
  }

  /** Any two sets of more than half of the pools share a pool. */
  lemma QuorumsMeet(sys: System, a: set<nat>, b: set<nat>)
    requires 2 * |a| > sys.pools && 2 * |b| > sys.pools
    requires forall p :: p in a + b ==> p < sys.pools
    ensures exists p :: p in a && p in b
  {
    if a !! b {
      assert |a + b| == |a| + |b|;
      SubsetSize(a + b, sys.pools);
    }
  }

  // Two promises not yet ended are promises of one value.
  lemma OneLiveValue(sys: System, s: State, a: Claim, b: Claim)
    requires Inv(sys, s) && ClaimInv(sys, s, a) && ClaimInv(sys, s, b) && Backed(sys, s, a) && Backed(sys, s, b)
    requires s.now < End(s, a) && s.now < End(s, b)
    ensures a.value == b.value
  {
    QuorumIsMajority(sys, |a.pools|);
    QuorumIsMajority(sys, |b.pools|);
    QuorumsMeet(sys, a.pools, b.pools);
    var p :| p in a.pools && p in b.pools;
    assert a.value !in s.unlocked && b.value !in s.unlocked;
    assert HoldsUntil(s.cells[p], a.value, a.until + sys.skew) && HoldsUntil(s.cells[p], b.value, b.until + sys.skew);
  }

  // A step adds at most one promise, from now on, and ends no earlier one later than it was.
  ghost predicate ClaimsGrow(s: State, s': State) {
    var n := |s.claims|;
    && n <= |s'.claims| <= n + 1
    && s'.claims[..n] == s.claims
    && (forall k :: 0 <= k < n ==> End(s', s'.claims[k]) <= End(s, s.claims[k]))
    && (|s'.claims| == n + 1 ==>
          var latest := s'.claims[n];
          && latest.from == s'.now
          && (!latest.extension ==>
                s'.now < End(s', latest) && forall k :: 0 <= k < n ==> s.claims[k].value != latest.value))
  }

  lemma ClaimsStep(sys: System, s: State, step: Step)
    requires Inv(sys, s) && Enabled(sys, s, step)
    ensures ClaimsGrow(s, Apply(sys, s, step))
  {
    if step.Do? {
      assert PhaseInv(sys, s, step.c);
    }
  }

  lemma OrderedCarries(sys: System, s: State, s': State)
    requires Inv(sys, s') && Leased(sys, s') && Ordered(s) && ClaimsGrow(s, s')
    ensures Ordered(s')
  {
    var n := |s.claims|;
    assert forall k :: 0 <= k < n ==> s'.claims[k] == s.claims[k];
    forall i, j | 0 <= i < j < |s'.claims| ensures InOrder(s', s'.claims[i], s'.claims[j]) {
      if j < n {
        assert InOrder(s, s.claims[i], s.claims[j]);
      } else {
        assert ClaimInv(sys, s', s'.claims[i]) && ClaimInv(sys, s', s'.claims[n]);
        assert Backed(sys, s', s'.claims[i]) && Backed(sys, s', s'.claims[n]);
        if s'.now < End(s', s'.claims[i]) && s'.now < End(s', s'.claims[n]) {
          OneLiveValue(sys, s', s'.claims[i], s'.claims[n]);
        }
      }
    }
  }

  // -------------------------------------------------------------------------------- Runs

  lemma {:induction false} RunInv(sys: System, steps: seq<Step>)
    ensures Inv(sys, Exec(sys, steps).1)
  {
    if steps != [] {
      var k := |steps| - 1;
      RunInv(sys, steps[..k]);
      var (ok, s) := Exec(sys, steps[..k]);
      if ok && Enabled(sys, s, steps[k]) {
        InvStep(sys, s, steps[k]);
      }
    }
  }

  lemma {:induction false} RunOrdered(sys: System, steps: seq<Step>)
    requires Sound(sys)
    ensures Leased(sys, Exec(sys, steps).1) && Ordered(Exec(sys, steps).1)
  {
    if steps != [] {
      var k := |steps| - 1;
      RunOrdered(sys, steps[..k]);
      RunInv(sys, steps[..k]);
      var (ok, s) := Exec(sys, steps[..k]);
      if ok && Enabled(sys, s, steps[k]) {
        InvStep(sys, s, steps[k]);
        LeaseStep(sys, s, steps[k]);
        ClaimsStep(sys, s, steps[k]);
        OrderedCarries(sys, s, Apply(sys, s, steps[k]));
      }
    }
  }

  // -------------------------------------------------------------------------------- Theorems

  /** At every point of every run, two promises that hold at one time are promises of one value,
      and two successes of Lock never hold at one time. */
  lemma MutualExclusion(sys: System, s: State)
    requires Sound(sys) && Reachable(sys, s)
    ensures Exclusive(s)
  {
    var steps :| Exec(sys, steps) == (true, s);
    RunInv(sys, steps);
    RunOrdered(sys, steps);
    forall i, j, t | 0 <= i < j < |s.claims| && HoldsAt(s, s.claims[i], t) && HoldsAt(s, s.claims[j], t)
      ensures s.claims[i].value == s.claims[j].value && s.claims[i].owner == s.claims[j].owner
    {
      assert InOrder(s, s.claims[i], s.claims[j]);
      assert ClaimInv(sys, s, s.claims[i]) && ClaimInv(sys, s, s.claims[j]);
    }
    forall i, j | 0 <= i < j < |s.claims| && !s.claims[i].extension && !s.claims[j].extension
      ensures s.claims[i].value != s.claims[j].value
    {
      assert InOrder(s, s.claims[i], s.claims[j]);
    }
  }

  /** While a promise has not ended, a quorum of pools stores its value with an expiry no earlier
      than its deadline. */
  lemma HolderIsBacked(sys: System, s: State, i: nat)
    requires Sound(sys) && Reachable(sys, s) && i < |s.claims| && s.now < End(s, s.claims[i])
    ensures 2 * |s.claims[i].pools| > sys.pools
    ensures forall p :: p in s.claims[i].pools ==>
      p < |s.cells| && HoldsUntil(s.cells[p], s.claims[i].value, s.claims[i].until + sys.skew)
  {
    var steps :| Exec(sys, steps) == (true, s);
    RunInv(sys, steps);
    RunOrdered(sys, steps);
    assert ClaimInv(sys, s, s.claims[i]) && Backed(sys, s, s.claims[i]);
  }

  /** After Extend returned true, a Lock with another value returns nil only at the end of the new
      lease or later, or after the holder started to unlock. */
  lemma ExtendProtects(sys: System, s: State, i: nat, j: nat)
    requires Sound(sys) && Reachable(sys, s) && i < j < |s.claims|
    requires s.claims[i].extension && !s.claims[j].extension && s.claims[i].value != s.claims[j].value
    ensures s.claims[i].until <= s.claims[j].from
      || (s.claims[i].value in s.unlocked && s.unlocked[s.claims[i].value] <= s.claims[j].from)
  {
    var steps :| Exec(sys, steps) == (true, s);
    RunOrdered(sys, steps);
    assert InOrder(s, s.claims[i], s.claims[j]);
  }

  /** When Lock returns ErrFailed, and ever after, its value is on no pool that ran its last release. */
  lemma FailedLockLeavesNothing(sys: System, s: State, i: nat, p: nat)
    requires Reachable(sys, s) && i < |s.failures| && p < sys.pools && p !in s.failures[i].missed
    ensures Fits(sys, s) && !HoldsValue(s.cells[p], s.failures[i].value)
  {
    var steps :| Exec(sys, steps) == (true, s);
    RunInv(sys, steps);
  }

  /** Whatever a Mutex does, the only live keys it changes are those of the value it is trying to lock
      with or, when it is not locking, of the value it holds; both are values that it generated itself.
      Only success replaces its value and deadline. */
  lemma NoInterference(sys: System, s: State, c: nat, action: Action, p: nat)
    requires Reachable(sys, s) && Fits(sys, s) && c < |s.clients| && CanAct(sys, s, c, action)
    requires p < sys.pools && s.cells[p].Held?
    ensures var s', me := Act(sys, s, c, action), s.clients[c];
      && (s'.cells[p] != s.cells[p] ==>
            && s.cells[p].value == (if me.phase.Locking() then me.phase.value else me.value)
            && s.cells[p].value in s.issued && s.issued[s.cells[p].value] == c)
      && (me.phase.Locking() && s.cells[p].value == me.value ==> s'.cells[p] == s.cells[p])
      && (|s'.claims| == |s.claims| ==> s'.clients[c].value == me.value && s'.clients[c].until == me.until)
  {
    var steps :| Exec(sys, steps) == (true, s);
    RunInv(sys, steps);
    assert PhaseInv(sys, s, c);
  }

  lemma WonIsCounted(sys: System, s: State, c: nat)
    requires Inv(sys, s) && c < |s.clients| && s.clients[c].phase.Deciding?
    ensures s.clients[c].phase.n == |s.clients[c].phase.won|
  {
    PhaseHolds(sys, s, c);
  }

  lemma TouchedIsCounted(sys: System, s: State, c: nat)
    requires Inv(sys, s) && c < |s.clients| && s.clients[c].phase.Extending?
    ensures s.clients[c].phase.n == |s.clients[c].phase.touched|
  {
    PhaseHolds(sys, s, c);
  }

  /** Wherever a run stands at the verdict of a round, Lock returns nil exactly when more than half of the
      pools are won and the deadline is ahead. */
  lemma DecideIff(sys: System, s: State, c: nat)
    requires Reachable(sys, s) && Fits(sys, s) && c < |s.clients| && s.clients[c].phase.Deciding?
    ensures var s', phase := Act(sys, s, c, Decide), s.clients[c].phase;
      s'.claims == (
        if 2 * |phase.won| > sys.pools && s.now < phase.until
        then s.claims + [Claim(c, phase.value, s.now, phase.until, false, phase.won)] else s.claims)
  {
    hide Inv, PhaseInv, Exec;
    var steps :| Exec(sys, steps) == (true, s);
    RunInv(sys, steps);
    WonIsCounted(sys, s, c);
    QuorumIsMajority(sys, |s.clients[c].phase.won|);
  }

  /** Wherever a run stands at the end of Extend, it returns true exactly when more than half of the pools
      were renewed. */
  lemma EndExtendIff(sys: System, s: State, c: nat)
    requires Reachable(sys, s) && Fits(sys, s) && c < |s.clients| && CanAct(sys, s, c, EndExtend)
    ensures var s', me := Act(sys, s, c, EndExtend), s.clients[c];
      var until := me.phase.start + sys.mutexes[c].Lease() - sys.skew;
      s'.claims == (
        if 2 * |me.phase.touched| > sys.pools
        then s.claims + [Claim(c, me.value, s.now, until, true, me.phase.touched)] else s.claims)
  {
    hide Inv, PhaseInv, Exec;
    var steps :| Exec(sys, steps) == (true, s);
    RunInv(sys, steps);
    TouchedIsCounted(sys, s, c);
    QuorumIsMajority(sys, |s.clients[c].phase.touched|);
  }
}
