/** The drift bound is exact: without it there is a run in which two Locks hold at once. */
module RedlockTightness {
  import opened Redlock
  import opened RedlockSafety

  lemma ReachStep(sys: System, s: State, step: Step) returns (s': State)
    requires Reachable(sys, s) && Fits(sys, s) && Enabled(sys, s, step)
    ensures Reachable(sys, s') && Fits(sys, s') && s' == Apply(sys, s, step)
  {
    var steps :| Exec(sys, steps) == (true, s);
    s' := Apply(sys, s, step);
    assert (steps + [step])[..|steps|] == steps;
    assert Exec(sys, steps + [step]) == (true, s');
  }

  ghost predicate AllHold(s: State, from: nat, to: nat, cell: Cell) {
    forall p :: from <= p < to && p < |s.cells| ==> s.cells[p] == cell
  }

  ghost predicate SameHistory(s: State, s': State) {
    s'.now == s.now && s'.unlocked == s.unlocked && s'.claims == s.claims && s'.issued == s.issued
  }

  // Acquires the pools from the current one on, all of them free, all replies heard.
  lemma {:induction false} AcquireRest(sys: System, s: State, c: nat) returns (s': State)
    requires Reachable(sys, s) && Fits(sys, s) && c < |s.clients|
    requires var phase := s.clients[c].phase; var my := sys.mutexes[c];
      && phase.Acquiring? && my.Lease() > 0 && phase.n == phase.next <= sys.pools
      && AllHold(s, 0, phase.next, Held(phase.value, s.now + my.Lease())) && AllHold(s, phase.next, sys.pools, Free)
    ensures Reachable(sys, s') && Fits(sys, s') && SameHistory(s, s')
    ensures var phase := s.clients[c].phase; var phase' := s'.clients[c].phase;
      && phase'.Acquiring? && phase'.next == phase'.n == sys.pools
      && phase'.value == phase.value && phase'.start == phase.start
      && AllHold(s', 0, sys.pools, Held(phase.value, s.now + sys.mutexes[c].Lease()))
    ensures forall d :: 0 <= d < |s.clients| && d != c ==> s'.clients[d] == s.clients[d]
    decreases sys.pools - s.clients[c].phase.next
  {
    if s.clients[c].phase.next == sys.pools {
      s' := s;
    } else {
      s' := ReachStep(sys, s, Do(c, Acquire(true, true)));
      s' := AcquireRest(sys, s', c);
    }
  }

  // A Lock without contention and without delay: it holds from now on for the whole validity.
  lemma LockAlone(sys: System, s: State, c: nat, value: string) returns (s': State)
    requires Reachable(sys, s) && Fits(sys, s) && c < |s.clients| && s.clients[c].phase.Idle?
    requires CanSucceed(sys, sys.mutexes[c]) && value != "" && value !in s.issued
    requires AllHold(s, 0, sys.pools, Free)
    ensures Reachable(sys, s') && Fits(sys, s') && s'.now == s.now && s'.unlocked == s.unlocked
    ensures s'.issued == s.issued[value := c] && s'.clients[c].phase.Idle?
    ensures AllHold(s', 0, sys.pools, Held(value, s.now + sys.mutexes[c].Lease()))
    ensures |s'.claims| == |s.claims| + 1 && s'.claims[..|s.claims|] == s.claims
    ensures var claim := s'.claims[|s.claims|];
      claim.owner == c && claim.value == value && !claim.extension
      && claim.from == s.now && claim.until == s.now + sys.mutexes[c].Validity()
    ensures s'.clients[c].value == value
    ensures forall d :: 0 <= d < |s.clients| && d != c ==> s'.clients[d] == s.clients[d]
  {
    s' := ReachStep(sys, s, Do(c, BeginLock(value)));
    s' := ReachStep(sys, s', Do(c, StartRound));
    s' := AcquireRest(sys, s', c);
    s' := ReachStep(sys, s', Do(c, ReadClock));
    s' := ReachStep(sys, s', Do(c, ComputeUntil));
    s' := ReachStep(sys, s', Do(c, Decide));
  }

  lemma {:induction false} ExpireRest(sys: System, s: State, value: string, e: int, next: nat) returns (s': State)
    requires Reachable(sys, s) && Fits(sys, s) && next <= sys.pools && e <= s.now + sys.skew
    requires AllHold(s, 0, next, Free) && AllHold(s, next, sys.pools, Held(value, e))
    ensures Reachable(sys, s') && Fits(sys, s') && SameHistory(s, s') && s'.clients == s.clients
    ensures AllHold(s', 0, sys.pools, Free)
    decreases sys.pools - next
  {
    if next == sys.pools {
      s' := s;
    } else {
      s' := ReachStep(sys, s, Expire(next));
      s' := ExpireRest(sys, s', value, e, next + 1);
    }
  }

  /** If Mutexes `a` and `b` can succeed and the drift allowance of `a` is too small, then `b` can
      lock while `a` holds. */
  lemma SecondHolder(sys: System, a: nat, b: nat) returns (s: State)
    requires a < |sys.mutexes| && b < |sys.mutexes|
    requires CanSucceed(sys, sys.mutexes[a]) && CanSucceed(sys, sys.mutexes[b])
    requires !DriftCovers(sys, sys.mutexes[a])
    ensures Reachable(sys, s) && |s.claims| == 2 && !s.claims[0].extension && !s.claims[1].extension
    ensures s.claims[0].owner == a && s.claims[1].owner == b && s.claims[0].value != s.claims[1].value
    ensures HoldsAt(s, s.claims[0], s.now) && HoldsAt(s, s.claims[1], s.now)
  {
    var lease := sys.mutexes[a].Lease();
    s := Init(sys);
    assert Exec(sys, []) == (true, s);
    s := LockAlone(sys, s, a, "a");
    s := ReachStep(sys, s, Tick(if lease > sys.skew then lease - sys.skew else 0));
    s := ExpireRest(sys, s, "a", lease, 0);
    s := LockAlone(sys, s, b, "b");
  }

  /** The lock is exclusive in every run if and only if every Mutex that can succeed allows enough
      drift. */
  lemma ExclusionIffDriftCovers(sys: System)
    ensures (forall s :: Reachable(sys, s) ==> Exclusive(s)) <==> Sound(sys)
  {
    if Sound(sys) {
      forall s | Reachable(sys, s) ensures Exclusive(s) {
        MutualExclusion(sys, s);
      }
    } else {
      var c :| 0 <= c < |sys.mutexes| && CanSucceed(sys, sys.mutexes[c]) && !DriftCovers(sys, sys.mutexes[c]);
      var s := SecondHolder(sys, c, c);
      assert !Exclusive(s);
    }
  }

  // The settings with which exclusion holds, in numbers: either the lock can never be taken, or the
  // expiry times the factor reaches 2ms plus what the expiry has beyond a millisecond plus the skew.
  predicate Allows(sys: System, my: Settings) {
    var product := my.expiry as real * my.factor;
    || sys.pools == 0 || my.tries <= 0 || my.expiry < 1_000_000 || product >= (my.expiry + 2_000_000) as real
    || product >= (2_000_000 + my.expiry % 1_000_000 + sys.skew) as real
  }

  /** The lock is exclusive in every run if and only if the settings of every Mutex allow it. */
  lemma ExclusionIffAllowed(sys: System)
    ensures (forall s :: Reachable(sys, s) ==> Exclusive(s))
      <==> forall c :: 0 <= c < |sys.mutexes| ==> Allows(sys, sys.mutexes[c])
  {
    forall c | 0 <= c < |sys.mutexes|
      ensures Allows(sys, sys.mutexes[c]) <==> (CanSucceed(sys, sys.mutexes[c]) ==> DriftCovers(sys, sys.mutexes[c]))
    {
      AllowsIff(sys, sys.mutexes[c]);
    }
    ExclusionIffDriftCovers(sys);
  }

  lemma AllowsIff(sys: System, my: Settings)
    ensures Allows(sys, my) <==> (CanSucceed(sys, my) ==> DriftCovers(sys, my))
  {
    if my.expiry >= MILLISECOND {
      TruncationReaches(my, my.expiry + 2 * MILLISECOND);
      TruncationReaches(my, 2 * MILLISECOND + my.expiry % MILLISECOND + sys.skew);
    }
  }

  /** The drift allowance is the product without its fraction. */
  lemma DriftTruncates(my: Settings)
    ensures var product := my.expiry as real * my.factor;
      if product >= 0.0 then my.Drift() as real <= product < my.Drift() as real + 1.0
      else my.Drift() as real - 1.0 < product <= my.Drift() as real
  {
    var product := my.expiry as real * my.factor;
    assert product < 0.0 ==> (-product).Floor as real <= -product;
  }

  // -------------------------------------------------------------------------------- Unlock's result

  // Runs the delete script on the pools from the current one on, all of them free, all replies heard.
  lemma {:induction false} UnlockFreePools(sys: System, s: State, c: nat) returns (s': State)
    requires Reachable(sys, s) && Fits(sys, s) && c < |s.clients| && AllHold(s, 0, sys.pools, Free)
    requires var phase := s.clients[c].phase;
      phase.Unlocking? && phase.n == phase.next <= sys.pools && phase.missed == {}
    ensures Reachable(sys, s') && Fits(sys, s') && s'.cells == s.cells
    ensures s'.clients[c] == s.clients[c].(phase := Unlocking(sys.pools, sys.pools, {}))
    decreases sys.pools - s.clients[c].phase.next
  {
    if s.clients[c].phase.next == sys.pools {
      s' := s;
    } else {
      s' := ReachStep(sys, s, Do(c, UnlockRelease(true, true)));
      assert s'.cells == s.cells;
      s' := UnlockFreePools(sys, s', c);
    }
  }

  /** Unlock's result says nothing about deletions: whatever Mutex can lock, there is a run in which it
      locked, every pool has long dropped its key, and Unlock still counts every pool. */
  lemma UnlockCountsFreePools(sys: System, c: nat) returns (before: State, after: State)
    requires c < |sys.mutexes| && CanSucceed(sys, sys.mutexes[c])
    ensures Reachable(sys, before) && Fits(sys, before) && AllHold(before, 0, sys.pools, Free)
    ensures before.clients[c].phase.Idle? && before.claims != [] && before.claims[0].value == before.clients[c].value
    ensures Reachable(sys, after) && Fits(sys, after) && after.cells == before.cells
    ensures after.clients[c] == before.clients[c].(phase := Unlocking(sys.pools, sys.pools, {}))
    ensures sys.pools >= sys.Quorum()
  {
    var lease := sys.mutexes[c].Lease();
    before := Init(sys);
    assert Exec(sys, []) == (true, before);
    before := LockAlone(sys, before, c, "a");
    before := ReachStep(sys, before, Tick(lease));
    before := ExpireRest(sys, before, "a", lease, 0);
    after := ReachStep(sys, before, Do(c, BeginUnlock));
    after := UnlockFreePools(sys, after, c);
  }

  // -------------------------------------------------------------------------------- Settings in use

  // NewMutex without options.
  function DefaultSettings(): Settings {
    Settings(8_000 * MILLISECOND, 0.01, 32)
  }

  // NewRedsync of components/lock: expiry and tries are clamped, a zero factor keeps the default.
  function WrapperSettings(expiry: int, tries: int, factor: real): Settings {
    Settings(
      (if expiry > 1 || expiry == 0 then 1 else expiry) * 1_000 * MILLISECOND,
      if factor != 0.0 then factor else 0.01,
      if tries > 3 || tries == 0 then 3 else tries)
  }

  /** Mutexes with the default settings exclude each other when the pools' clocks are at most 78ms
      off, and no further. */
  lemma DefaultsAreSound(pools: nat, skew: nat, mutexes: nat)
    requires pools > 0 && mutexes > 0
    ensures DefaultSettings() == Settings(8_000_000_000, 0.01, 32)
    ensures Sound(System(pools, skew, seq(mutexes, _ => DefaultSettings()))) <==> skew <= 78 * MILLISECOND
  {
    var my := DefaultSettings();
    assert my.Drift() == 80 * MILLISECOND by {
      assert my.expiry as real * my.factor == (80 * MILLISECOND) as real;
    }
    assert CanSucceed(System(pools, skew, []), my);
    var sys := System(pools, skew, seq(mutexes, _ => my));
    assert sys.mutexes[0] == my;
  }

  /** The wrapper never waits for more than a second or tries more than three times, and keeps what is
      within these bounds. */
  lemma WrapperClamps(expiry: int, tries: int, factor: real)
    ensures var my := WrapperSettings(expiry, tries, factor);
      && my.expiry == (if 1 < expiry || expiry == 0 then 1_000_000_000 else expiry * 1_000_000_000)
      && my.tries <= 3 && (0 < tries <= 3 || tries < 0 ==> my.tries == tries)
      && (tries > 3 || tries == 0 ==> my.tries == 3)
      && (factor != 0.0 ==> my.factor == factor) && (factor == 0.0 ==> my.factor == DefaultSettings().factor)
  {
  }

  /** Whatever the wrapper is configured with, its lock is sound if and only if its drift allowance
      reaches 2ms and the skew, or it can never be taken. */
  lemma WrapperIsSoundIff(pools: nat, skew: nat, expiry: int, tries: int, factor: real)
    ensures var my := WrapperSettings(expiry, tries, factor);
      var allowance := my.factor * (1_000 * MILLISECOND) as real;
      Sound(System(pools, skew, [my])) <==>
        pools == 0 || tries < 0 || expiry < 0
        || allowance >= (2 * MILLISECOND + skew) as real || allowance >= (1_002 * MILLISECOND) as real
  {
    var my := WrapperSettings(expiry, tries, factor);
    var sys := System(pools, skew, [my]);
    assert sys.mutexes[0] == my;
    if expiry >= 0 {
      TruncationReaches(my, 2 * MILLISECOND + skew);
      TruncationReaches(my, 1_002 * MILLISECOND);
    }
  }

  // Truncation loses no whole bound.
  lemma TruncationReaches(my: Settings, bound: nat)
    requires bound > 0
    ensures my.Drift() >= bound <==> my.expiry as real * my.factor >= bound as real
  {
  }
}
