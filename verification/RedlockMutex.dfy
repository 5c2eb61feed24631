/** The Mutex as the program its callers run.  Each method performs its steps on a cluster that all
    other Mutexes, the clock and key expiry change between any two of them. */
module RedlockMutex {
  import opened Redlock
  import opened RedlockSafety
  import opened RedlockTrace
  import opened Wrappers

  class Cluster {
    const sys: System
    var s: State
    ghost var steps: seq<Step>

    ghost predicate Valid()
      reads this
    {
      Exec(sys, steps) == (true, s)
    }

    constructor (sys: System)
      ensures Valid() && this.sys == sys && s == Init(sys) && steps == []
    {
      this.sys := sys;
      s := Init(sys);
      steps := [];
    }

    method Perform(step: Step)
      requires Valid() && Fits(sys, s) && Enabled(sys, s, step)
      modifies this
      ensures Valid() && Fits(sys, s) && s == Apply(sys, old(s), step) && steps == old(steps) + [step]
    {
      assert (steps + [step])[..|steps|] == steps;
      s := Apply(sys, s, step);
      steps := steps + [step];
    }

    // Any number of steps of anyone but Mutex c.
    method Others(c: nat)
      requires Valid() && Fits(sys, s) && c < |s.clients|
      modifies this
      ensures Valid() && Fits(sys, s) && s.clients[c] == old(s).clients[c]
      ensures s.now >= old(s).now && old(steps) <= steps && Quiet(steps, |old(steps)|, c)
      ensures forall v :: v in old(s).unlocked ==> v in s.unlocked && s.unlocked[v] == old(s).unlocked[v]
      ensures OnlyOthers(old(s).claims, s.claims, c)
    {
      hide Exec, Apply, Enabled;
      var k: nat := *;
      while k > 0
        invariant Valid() && Fits(sys, s) && s.clients[c] == old(s).clients[c]
        invariant s.now >= old(s).now && old(steps) <= steps && Quiet(steps, |old(steps)|, c)
        invariant forall v :: v in old(s).unlocked ==> v in s.unlocked && s.unlocked[v] == old(s).unlocked[v]
        invariant OnlyOthers(old(s).claims, s.claims, c)
      {
        var step: Step := *;
        if Enabled(sys, s, step) && !Actor(step, c) {
          assert step.Do? ==> step.c < |s.clients| by {
            ActorExists(sys, s, step);
          }
          RecordsAfter(sys, s, step);
          Perform(step);
        }
        k := k - 1;
      }
    }
  }

  // Claims were added, none of them by Mutex c.
  ghost predicate OnlyOthers(before: seq<Claim>, claims: seq<Claim>, c: nat) {
    && |before| <= |claims| && claims[..|before|] == before
    && forall i :: |before| <= i < |claims| ==> claims[i].owner != c
  }

  // Since step lo, Mutex c did what `event` says to exactly the pools in `pools`.
  ghost predicate Tally(sys: System, steps: seq<Step>, lo: nat, c: nat, event: Event, pools: set<nat>) {
    lo <= |steps| && forall p :: p in pools <==> Did(sys, steps, lo, |steps|, c, event, p)
  }

  lemma TallyNothing(sys: System, steps: seq<Step>, c: nat, event: Event)
    ensures Tally(sys, steps, |steps|, c, event, {})
  {
  }

  lemma TallyQuiet(
    sys: System, steps: seq<Step>, more: seq<Step>, lo: nat, c: nat, event: Event, pools: set<nat>)
    requires Tally(sys, steps, lo, c, event, pools) && steps <= more && Quiet(more, |steps|, c)
    ensures Tally(sys, more, lo, c, event, pools)
  {
    hide Did, Quiet;
    forall p ensures p in pools <==> Did(sys, more, lo, |more|, c, event, p) {
      DidQuiet(sys, steps, more, lo, c, event, p);
    }
  }

  // One more step that is no command.
  lemma TallyStep(
    sys: System, steps: seq<Step>, step: Step, lo: nat, c: nat, event: Event, pools: set<nat>)
    requires Tally(sys, steps, lo, c, event, pools) && (step.Do? ==> !Commands(step.action))
    ensures Tally(sys, steps + [step], lo, c, event, pools)
  {
    assert forall p :: !Happened(sys, steps + [step], |steps|, c, event, p);
    hide Did, Happened;
    forall p ensures p in pools <==> Did(sys, steps + [step], lo, |steps| + 1, c, event, p) {
      DidNext(sys, steps, step, lo, c, event, p);
    }
  }

  // One more command, which did what `event` says to its pool or did not.
  lemma TallyCommand(
    sys: System, steps: seq<Step>, s: State, action: Action, lo: nat, c: nat, event: Event, pools: set<nat>)
    requires Exec(sys, steps) == (true, s) && c < |s.clients| && CanAct(sys, s, c, action) && Commands(action)
    requires Tally(sys, steps, lo, c, event, pools)
    ensures Tally(
      sys, steps + [Do(c, action)], lo, c, event,
      if Effect(sys, s, c, action, event) then pools + {s.clients[c].phase.next} else pools)
  {
    hide Did, Happened, Effect, Exec;
    var more := if Effect(sys, s, c, action, event) then pools + {s.clients[c].phase.next} else pools;
    forall p ensures p in more <==> Did(sys, steps + [Do(c, action)], lo, |steps| + 1, c, event, p) {
      DidNext(sys, steps, Do(c, action), lo, c, event, p);
      HappenedLast(sys, steps, s, c, action, event, p);
    }
  }

  // Since step lo, Mutex c ran the delete script on every pool but those in `missed`.
  ghost predicate MissedOnly(sys: System, steps: seq<Step>, lo: nat, c: nat, missed: set<nat>) {
    lo <= |steps| && forall p: nat :: p in missed <==> p < sys.pools && !Did(sys, steps, lo, |steps|, c, Ran, p)
  }

  lemma MissedQuiet(sys: System, steps: seq<Step>, step: Step, lo: nat, c: nat, missed: set<nat>)
    requires MissedOnly(sys, steps, lo, c, missed)
    requires !step.Do? || !Commands(step.action)
    ensures MissedOnly(sys, steps + [step], lo, c, missed)
  {
    hide Did;
    forall p: nat
      ensures Did(sys, steps + [step], lo, |steps| + 1, c, Ran, p) <==> Did(sys, steps, lo, |steps|, c, Ran, p)
    {
      DidNext(sys, steps, step, lo, c, Ran, p);
    }
  }

  // Of the first p pools, those in `ran` ran the script and those in `missed` did not.
  ghost predicate Split(p: nat, missed: set<nat>, ran: set<nat>) {
    (forall q: nat :: q in missed <==> q < p && q !in ran) && forall q :: q in ran ==> q < p
  }

  lemma NothingSplit()
    ensures Split(0, {}, {})
  {
  }

  lemma SplitNext(p: nat, missed: set<nat>, ran: set<nat>)
    requires Split(p, missed, ran)
    ensures Split(p + 1, missed + {p}, ran) && Split(p + 1, missed, ran + {p})
  {
  }

  lemma TallyMisses(sys: System, steps: seq<Step>, lo: nat, c: nat, ran: set<nat>, missed: set<nat>)
    requires Tally(sys, steps, lo, c, Ran, ran) && Split(sys.pools, missed, ran)
    ensures MissedOnly(sys, steps, lo, c, missed)
  {
    hide Did;
  }

  class Mutex {
    const cluster: Cluster
    const id: nat
    var value: string
    var until: int

    ghost predicate At(phase: Phase)
      reads this, cluster
    {
      && cluster.Valid() && Fits(cluster.sys, cluster.s) && id < |cluster.s.clients|
      && cluster.s.clients[id] == Client(value, until, phase)
    }

    ghost predicate Valid()
      reads this, cluster
    {
      At(Idle)
    }

    // What every point of a run satisfies, at the program point of this Mutex.
    lemma Known(phase: Phase)
      requires At(phase)
      ensures Inv(cluster.sys, cluster.s) && PhaseInv(cluster.sys, cluster.s, id)
    {
      RunInv(cluster.sys, cluster.steps);
    }

    constructor (cluster: Cluster, id: nat)
      requires cluster.Valid() && Fits(cluster.sys, cluster.s) && id < |cluster.s.clients|
      requires cluster.s.clients[id] == Client("", 0, Idle)
      ensures Valid() && this.cluster == cluster && this.id == id && value == "" && until == 0
    {
      this.cluster := cluster;
      this.id := id;
      value := "";
      until := 0;
    }

    // The start and first loop of a round: SET name value NX PX on every pool, counting the OKs
    // received.
    method AcquireAll(ghost v: string, ghost round: nat, ghost missed: set<nat>)
      returns (start: int, n: nat, ghost won: set<nat>)
      requires At(Waiting(v, round, missed)) && round < cluster.sys.mutexes[id].tries
      modifies cluster
      ensures At(Acquiring(v, round, start, cluster.sys.pools, n, won))
      ensures old(cluster.steps) + [Do(id, StartRound)] <= cluster.steps && start == old(cluster.s.now)
      ensures Tally(cluster.sys, cluster.steps, |old(cluster.steps)|, id, Won, won)
      ensures NoRound(cluster.steps, |old(cluster.steps)| + 1, id)
    {
      hide Exec, Tally, Happened;
      ghost var lo := |cluster.steps|;
      start := cluster.s.now;
      TallyNothing(cluster.sys, cluster.steps, id, Won);
      TallyStep(cluster.sys, cluster.steps, Do(id, StartRound), lo, id, Won, {});
      cluster.Perform(Do(id, StartRound));
      n, won := 0, {};
      for p := 0 to cluster.sys.pools
        invariant At(Acquiring(v, round, start, p, n, won))
        invariant old(cluster.steps) + [Do(id, StartRound)] <= cluster.steps
        invariant Tally(cluster.sys, cluster.steps, lo, id, Won, won)
        invariant NoRound(cluster.steps, lo + 1, id)
      {
        n, won := AcquireOne(v, round, start, p, n, won, lo);
      }
    }

    // SET name value NX PX on one pool.
    method AcquireOne(
      ghost v: string, ghost round: nat, ghost start: int, p: nat, n: nat, ghost won: set<nat>, ghost lo: nat)
      returns (n': nat, ghost won': set<nat>)
      requires At(Acquiring(v, round, start, p, n, won)) && p < cluster.sys.pools
      requires Tally(cluster.sys, cluster.steps, lo, id, Won, won)
      modifies cluster
      ensures At(Acquiring(v, round, start, p + 1, n', won')) && old(cluster.steps) <= cluster.steps
      ensures Tally(cluster.sys, cluster.steps, lo, id, Won, won')
      ensures NoRound(cluster.steps, |old(cluster.steps)|, id)
    {
      hide Tally, Happened;
      cluster.Others(id);
      TallyQuiet(cluster.sys, old(cluster.steps), cluster.steps, lo, id, Won, won);
      var ran: bool := *;
      var heard: bool := *;
      n' := n;
      if ran && heard && cluster.s.cells[p].Free? && cluster.sys.mutexes[id].Lease() > 0 {
        n' := n + 1;
      }
      ghost var steps, s := cluster.steps, cluster.s;
      cluster.Perform(Do(id, Acquire(ran, heard)));
      won' := cluster.s.clients[id].phase.won;
      TallyCommand(cluster.sys, steps, s, Acquire(ran, heard), lo, id, Won, won);
    }

    // The deadline of a round, from two readings of the clock.
    method Deadline(
      start: int, ghost v: string, ghost round: nat, ghost n: nat, ghost won: set<nat>)
      returns (deadline: int, ghost read: nat, ghost computed: nat)
      requires At(Acquiring(v, round, start, cluster.sys.pools, n, won))
      modifies cluster
      ensures At(Deciding(v, round, start, n, won, deadline)) && old(cluster.steps) <= cluster.steps
      ensures |old(cluster.steps)| <= read < computed < |cluster.steps|
      ensures cluster.steps[read] == Do(id, ReadClock) && cluster.steps[computed] == Do(id, ComputeUntil)
      ensures Quiet(cluster.steps[..read], |old(cluster.steps)|, id)
      ensures var sys, steps, my := cluster.sys, cluster.steps, cluster.sys.mutexes[id];
        deadline == Now(sys, steps, read) + (my.expiry - (Now(sys, steps, computed) - start) - my.Drift() + 2_000_000)
      ensures NoRound(cluster.steps, |old(cluster.steps)|, id)
    {
      var my := cluster.sys.mutexes[id];
      cluster.Others(id);
      read := |cluster.steps|;
      var now := cluster.s.now;
      ghost var atRead := cluster.steps;
      cluster.Perform(Do(id, ReadClock));
      cluster.Others(id);
      computed := |cluster.steps|;
      ghost var atComputed := cluster.steps;
      deadline := now + (my.expiry - (cluster.s.now - start) - my.Drift() + 2 * MILLISECOND);
      cluster.Perform(Do(id, ComputeUntil));
      assert cluster.steps[..read] == atRead && cluster.steps[..computed] == atComputed;
    }

    // The second loop of a round: deleteScript on every pool.
    method ReleaseAll(ghost v: string, ghost round: nat) returns (ghost missed: set<nat>)
      requires At(Releasing(v, round, 0, {}))
      modifies cluster
      ensures At(Waiting(v, round + 1, missed)) && old(cluster.steps) <= cluster.steps
      ensures MissedOnly(cluster.sys, cluster.steps, |old(cluster.steps)|, id, missed)
      ensures NoRound(cluster.steps, |old(cluster.steps)|, id)
    {
      hide Exec, Tally, Happened, MissedOnly, Split;
      ghost var lo := |cluster.steps|;
      ghost var ran: set<nat> := {};
      missed := {};
      TallyNothing(cluster.sys, cluster.steps, id, Ran);
      NothingSplit();
      for p := 0 to cluster.sys.pools
        invariant At(Releasing(v, round, p, missed)) && old(cluster.steps) <= cluster.steps
        invariant Tally(cluster.sys, cluster.steps, lo, id, Ran, ran)
        invariant Split(p, missed, ran)
        invariant NoRound(cluster.steps, lo, id)
      {
        SplitNext(p, missed, ran);
        missed, ran := ReleaseOne(v, round, p, missed, ran, lo);
      }
      TallyStep(cluster.sys, cluster.steps, Do(id, EndRound), lo, id, Ran, ran);
      cluster.Perform(Do(id, EndRound));
      TallyMisses(cluster.sys, cluster.steps, lo, id, ran, missed);
    }

    // deleteScript on one pool.
    method ReleaseOne(
      ghost v: string, ghost round: nat, p: nat, ghost missed: set<nat>, ghost ran: set<nat>, ghost lo: nat)
      returns (ghost missed': set<nat>, ghost ran': set<nat>)
      requires At(Releasing(v, round, p, missed)) && p < cluster.sys.pools
      requires Tally(cluster.sys, cluster.steps, lo, id, Ran, ran)
      modifies cluster
      ensures At(Releasing(v, round, p + 1, missed')) && old(cluster.steps) <= cluster.steps
      ensures Tally(cluster.sys, cluster.steps, lo, id, Ran, ran')
      ensures (ran' == ran + {p} && missed' == missed) || (ran' == ran && missed' == missed + {p})
      ensures NoRound(cluster.steps, |old(cluster.steps)|, id)
    {
      hide Tally, Happened;
      cluster.Others(id);
      TallyQuiet(cluster.sys, old(cluster.steps), cluster.steps, lo, id, Ran, ran);
      var deleting: bool := *;
      ghost var steps, s := cluster.steps, cluster.s;
      cluster.Perform(Do(id, Release(deleting)));
      missed' := cluster.s.clients[id].phase.missed;
      ran' := if deleting then ran + {p} else ran;
      TallyCommand(cluster.sys, steps, s, Release(deleting), lo, id, Ran, ran);
    }

    // Lock has just succeeded with the value and the deadline that the Mutex now holds.
    ghost predicate JustLocked()
      reads this, cluster
    {
      && value !in cluster.s.unlocked && cluster.s.claims != []
      && var claim := cluster.s.claims[|cluster.s.claims| - 1];
      && claim.owner == id && claim.value == value && claim.until == until && !claim.extension
      && claim.from == cluster.s.now < until
    }

    // Lock has returned nil with the value.
    ghost predicate Claimed(v: string)
      reads cluster
    {
      exists claim :: claim in cluster.s.claims && claim.value == v && !claim.extension
    }

    // Every claim that holds now is one of the value of this Mutex.
    ghost predicate HoldsAlone()
      reads this, cluster
    {
      forall claim :: claim in cluster.s.claims && HoldsAt(cluster.s, claim, cluster.s.now) ==> claim.value == value
    }

    // The value is at most on the pools in `missed`.
    ghost predicate OnlyOn(v: string, missed: set<nat>)
      reads cluster
    {
      forall p :: 0 <= p < cluster.sys.pools && p < |cluster.s.cells| && p !in missed ==>
        !HoldsValue(cluster.s.cells[p], v)
    }

    // The verdict of a round: more than half of the pools, before the deadline.
    method Conclude(v: string, deadline: int, n: nat, ghost round: nat, ghost start: int, ghost won: set<nat>)
      returns (ok: bool, ghost verdict: nat)
      requires At(Deciding(v, round, start, n, won, deadline))
      modifies this, cluster
      ensures verdict + 1 == |cluster.steps| && old(cluster.steps) <= cluster.steps[..verdict]
      ensures cluster.steps[verdict] == Do(id, Decide) && NoRound(cluster.steps, |old(cluster.steps)|, id)
      ensures Quiet(cluster.steps[..verdict], |old(cluster.steps)|, id)
      ensures ok <==> 2 * |won| > cluster.sys.pools && Now(cluster.sys, cluster.steps, verdict) < deadline
      ensures ok ==> Valid() && value == v && JustLocked()
      ensures !ok ==> At(Releasing(v, round, 0, {})) && value == old(value) && until == old(until)
    {
      cluster.Others(id);
      Known(Deciding(v, round, start, n, won, deadline));
      WonIsCounted(cluster.sys, cluster.s, id);
      QuorumIsMajority(cluster.sys, n);
      verdict := |cluster.steps|;
      ghost var atVerdict := cluster.steps;
      ok := n >= cluster.sys.Quorum() && cluster.s.now < deadline;
      cluster.Perform(Do(id, Decide));
      assert cluster.steps[..verdict] == atVerdict;
      if ok {
        value := v;
        until := deadline;
      }
    }

    // One round of Lock: it succeeds exactly when it won more than half of the pools in time.
    method Round(v: string, ghost round: nat, ghost missed: set<nat>)
      returns (ok: bool, ghost missed': set<nat>, ghost attempt: Attempt)
      requires At(Waiting(v, round, missed)) && round < cluster.sys.mutexes[id].tries
      modifies this, cluster
      ensures old(cluster.steps) <= cluster.steps && attempt.start == |old(cluster.steps)|
      ensures IsAttempt(cluster.sys, cluster.steps, id, attempt)
      ensures NoRound(cluster.steps, |old(cluster.steps)| + 1, id)
      ensures ok <==> Succeeds(cluster.sys, cluster.steps, id, attempt)
      ensures ok ==> Valid() && value == v && JustLocked()
      ensures !ok ==> At(Waiting(v, round + 1, missed')) && value == old(value) && until == old(until)
      ensures !ok ==> MissedOnly(cluster.sys, cluster.steps, attempt.verdict + 1, id, missed')
    {
      hide Exec, Did, MissedOnly, JustLocked;
      missed' := {};
      var start, n;
      ghost var won;
      ghost var sys, lo := cluster.sys, |cluster.steps|;
      start, n, won := AcquireAll(v, round, missed);
      ghost var acquired := cluster.steps;
      var deadline;
      ghost var read, computed, verdict;
      deadline, read, computed := Deadline(start, v, round, n, won);
      ghost var computing := cluster.steps;
      ok, verdict := Conclude(v, deadline, n, round, start, won);
      ghost var decided := cluster.steps;
      attempt := Attempt(lo, read, computed, verdict, won);
      assert decided[..read] == computing[..read] && computing <= decided;
      WonInRound(sys, acquired, decided, lo, read, id, won);
      assert decided[..lo] == old(cluster.steps);
      NowStable(sys, computing, decided, read);
      NowStable(sys, computing, decided, computed);
      assert IsAttempt(sys, decided, id, attempt);
      assert ok <==> Succeeds(sys, decided, id, attempt);
      if !ok {
        missed' := ReleaseAll(v, round);
        AttemptStable(sys, decided, cluster.steps, id, attempt);
      }
    }

    /** Lock.  `generated` is what genValue returns; without a value nothing happens.  It makes rounds until
        one wins more than half of the pools in time, or none is left of its tries: `attempts` are all its
        rounds.  With sound settings nobody else holds the lock when it returns true; `missed` are exactly
        the pools that did not run the last release when it fails. */
    method Lock(generated: Option<string>)
      returns (ok: bool, ghost missed: set<nat>, ghost attempts: seq<Attempt>)
      requires Valid() && (generated.Some? ==> generated.value != "" && generated.value !in cluster.s.issued)
      modifies this, cluster
      ensures Valid() && old(cluster.steps) <= cluster.steps
      ensures generated.None? ==> !ok && attempts == [] && cluster.steps == old(cluster.steps)
      ensures Attempts(cluster.sys, cluster.steps, |old(cluster.steps)|, id, attempts)
      ensures ok ==> LastSucceeds(cluster.sys, cluster.steps, id, attempts)
      ensures ok ==> attempts != [] && |attempts| <= cluster.sys.mutexes[id].tries
      ensures Fail(cluster.sys, cluster.steps, id, attempts, if ok then |attempts| - 1 else |attempts|)
      ensures !ok && generated.Some? ==>
        |attempts| == if cluster.sys.mutexes[id].tries > 0 then cluster.sys.mutexes[id].tries else 0
      ensures generated.Some? ==> (ok <==> Claimed(generated.value))
      ensures ok ==> value == generated.value && JustLocked()
      ensures ok && Sound(cluster.sys) ==> HoldsAlone()
      ensures !ok ==> value == old(value) && until == old(until)
      ensures !ok && generated.Some? ==> Failure(generated.value, missed) in cluster.s.failures
      ensures !ok && attempts != [] ==>
        MissedOnly(cluster.sys, cluster.steps, attempts[|attempts| - 1].verdict + 1, id, missed)
      ensures !ok && generated.Some? ==> OnlyOn(generated.value, missed)
    {
      hide Exec, Attempts, Fail, MissedOnly, IsAttempt, Succeeds, JustLocked, Claimed, HoldsAlone, OnlyOn, LastSucceeds;
      NoAttempts(|cluster.steps|);
      hide At;
      if generated.None? {
        return false, {}, [];
      }
      ok, missed, attempts := AllRounds(generated.value);
      if ok {
        Excluded();
      } else {
        GiveUpLock(generated.value, |attempts|, missed, |old(cluster.steps)|, attempts);
      }
    }

    // The rounds of Lock, until one succeeds or none is left.
    method AllRounds(v: string) returns (ok: bool, ghost missed: set<nat>, ghost attempts: seq<Attempt>)
      requires Valid() && v != "" && v !in cluster.s.issued
      modifies this, cluster
      ensures old(cluster.steps) <= cluster.steps && id < |cluster.sys.mutexes|
      ensures Attempts(cluster.sys, cluster.steps, |old(cluster.steps)|, id, attempts)
      ensures ok ==> LastSucceeds(cluster.sys, cluster.steps, id, attempts)
      ensures ok ==> attempts != [] && |attempts| <= cluster.sys.mutexes[id].tries
      ensures Fail(cluster.sys, cluster.steps, id, attempts, if ok then |attempts| - 1 else |attempts|)
      ensures ok ==> Valid() && value == v && JustLocked()
      ensures !ok ==> At(Waiting(v, |attempts|, missed)) && value == old(value) && until == old(until)
      ensures !ok ==>
        |attempts| == if cluster.sys.mutexes[id].tries > 0 then cluster.sys.mutexes[id].tries else 0
      ensures !ok && attempts != [] ==>
        MissedOnly(cluster.sys, cluster.steps, attempts[|attempts| - 1].verdict + 1, id, missed)
    {
      hide Exec, Attempts, Fail, MissedOnly, IsAttempt, Succeeds, JustLocked;
      ok, missed, attempts := false, {}, [];
      ghost var lo := |cluster.steps|;
      NoAttempts(lo);
      cluster.Perform(Do(id, BeginLock(v)));
      AttemptsStable(cluster.sys, old(cluster.steps), cluster.steps, lo, id, [], 0);
      var i: nat := 0;
      while i < cluster.sys.mutexes[id].tries
        invariant At(Waiting(v, i, missed)) && value == old(value) && until == old(until)
        invariant old(cluster.steps) <= cluster.steps && |attempts| == i && !ok
        invariant i > 0 ==> i <= cluster.sys.mutexes[id].tries
        invariant Attempts(cluster.sys, cluster.steps, lo, id, attempts)
        invariant Fail(cluster.sys, cluster.steps, id, attempts, i)
        invariant i > 0 ==> MissedOnly(cluster.sys, cluster.steps, attempts[i - 1].verdict + 1, id, missed)
        decreases cluster.sys.mutexes[id].tries - i
      {
        ghost var attempt;
        ok, missed, attempt := NextRound(v, i, missed, lo, attempts);
        attempts := attempts + [attempt];
        if ok {
          return;
        }
        i := i + 1;
      }
    }

    lemma NoAttempts(lo: nat)
      requires At(Idle) && lo == |cluster.steps|
      ensures Attempts(cluster.sys, cluster.steps, lo, id, [])
      ensures id < |cluster.sys.mutexes| && Fail(cluster.sys, cluster.steps, id, [], 0)
    {
    }

    lemma Excluded()
      requires At(Idle) && JustLocked()
      ensures Claimed(value) && (Sound(cluster.sys) ==> HoldsAlone())
    {
      assert cluster.s.claims[|cluster.s.claims| - 1] in cluster.s.claims;
      if Sound(cluster.sys) {
        MutualExclusion(cluster.sys, cluster.s);
      }
    }

    // The delay and one more round.
    method NextRound(v: string, ghost round: nat, ghost missed: set<nat>, ghost lo: nat, ghost attempts: seq<Attempt>)
      returns (ok: bool, ghost missed': set<nat>, ghost attempt: Attempt)
      requires At(Waiting(v, round, missed)) && round < cluster.sys.mutexes[id].tries
      requires lo <= |cluster.steps| && Attempts(cluster.sys, cluster.steps, lo, id, attempts)
      requires Fail(cluster.sys, cluster.steps, id, attempts, |attempts|)
      modifies this, cluster
      ensures old(cluster.steps) <= cluster.steps
      ensures Attempts(cluster.sys, cluster.steps, lo, id, attempts + [attempt])
      ensures IsAttempt(cluster.sys, cluster.steps, id, attempt)
      ensures ok <==> Succeeds(cluster.sys, cluster.steps, id, attempt)
      ensures Fail(cluster.sys, cluster.steps, id, attempts + [attempt], |attempts| + (if ok then 0 else 1))
      ensures ok ==> Valid() && value == v && JustLocked()
      ensures !ok ==> At(Waiting(v, round + 1, missed')) && value == old(value) && until == old(until)
      ensures !ok ==> MissedOnly(cluster.sys, cluster.steps, attempt.verdict + 1, id, missed')
    {
      hide Exec, Attempts, Fail, MissedOnly, IsAttempt, Succeeds, JustLocked;
      cluster.Others(id);
      ghost var steps := cluster.steps;
      AttemptsStable(cluster.sys, old(cluster.steps), steps, lo, id, attempts, |attempts|);
      ok, missed', attempt := Round(v, round, missed);
      AttemptsNext(cluster.sys, steps, cluster.steps, lo, id, attempts, attempt);
    }

    // Lock returns ErrFailed.
    method GiveUpLock(v: string, ghost round: nat, ghost missed: set<nat>, ghost lo: nat, ghost attempts: seq<Attempt>)
      requires At(Waiting(v, round, missed)) && round >= cluster.sys.mutexes[id].tries
      requires lo <= |cluster.steps| && Attempts(cluster.sys, cluster.steps, lo, id, attempts)
      requires Fail(cluster.sys, cluster.steps, id, attempts, |attempts|)
      requires attempts != [] ==>
        MissedOnly(cluster.sys, cluster.steps, attempts[|attempts| - 1].verdict + 1, id, missed)
      modifies cluster
      ensures Valid() && old(cluster.steps) <= cluster.steps
      ensures Attempts(cluster.sys, cluster.steps, lo, id, attempts)
      ensures Fail(cluster.sys, cluster.steps, id, attempts, |attempts|)
      ensures attempts != [] ==>
        MissedOnly(cluster.sys, cluster.steps, attempts[|attempts| - 1].verdict + 1, id, missed)
      ensures Failure(v, missed) in cluster.s.failures
      ensures !Claimed(v) && OnlyOn(v, missed)
    {
      Known(Waiting(v, round, missed));
      assert Trying(cluster.s, id, v) && Gone(cluster.s, v, missed, cluster.sys.pools);
      hide Exec, Attempts, Fail, MissedOnly, IsAttempt, Succeeds, Inv, PhaseInv;
      cluster.Perform(Do(id, GiveUp));
      assert cluster.s.failures[|cluster.s.failures| - 1] == Failure(v, missed);
      AttemptsStable(cluster.sys, old(cluster.steps), cluster.steps, lo, id, attempts, |attempts|);
      if attempts != [] {
        MissedQuiet(cluster.sys, old(cluster.steps), Do(id, GiveUp), attempts[|attempts| - 1].verdict + 1, id, missed);
      }
    }

    // The loop of Unlock: deleteScript on every pool, counting the scripts that ran and were heard.
    method UnlockAll() returns (n: nat, ghost missed: set<nat>, ghost heard: set<nat>)
      requires At(Unlocking(0, 0, {})) && value in cluster.s.unlocked
      modifies cluster
      ensures At(Unlocking(cluster.sys.pools, n, missed)) && old(cluster.steps) <= cluster.steps
      ensures value in cluster.s.unlocked && cluster.s.unlocked[value] == old(cluster.s.unlocked[value])
      ensures Tally(cluster.sys, cluster.steps, |old(cluster.steps)|, id, Answered, heard) && n == |heard|
      ensures MissedOnly(cluster.sys, cluster.steps, |old(cluster.steps)|, id, missed)
    {
      hide Exec, Tally, Happened, MissedOnly, Split;
      ghost var lo, ran: set<nat> := |cluster.steps|, {};
      n, missed, heard := 0, {}, {};
      TallyNothing(cluster.sys, cluster.steps, id, Ran);
      TallyNothing(cluster.sys, cluster.steps, id, Answered);
      NothingSplit();
      for p := 0 to cluster.sys.pools
        invariant At(Unlocking(p, n, missed)) && old(cluster.steps) <= cluster.steps
        invariant value in cluster.s.unlocked && cluster.s.unlocked[value] == old(cluster.s.unlocked[value])
        invariant Tally(cluster.sys, cluster.steps, lo, id, Ran, ran)
        invariant Tally(cluster.sys, cluster.steps, lo, id, Answered, heard) && n == |heard|
        invariant Split(p, missed, ran) && forall q :: q in heard ==> q < p
      {
        SplitNext(p, missed, ran);
        n, missed, ran, heard := UnlockOne(p, n, missed, ran, heard, lo);
      }
      TallyMisses(cluster.sys, cluster.steps, lo, id, ran, missed);
    }

    // deleteScript on one pool.
    method UnlockOne(
      p: nat, n: nat, ghost missed: set<nat>, ghost ran: set<nat>, ghost heard: set<nat>, ghost lo: nat)
      returns (n': nat, ghost missed': set<nat>, ghost ran': set<nat>, ghost heard': set<nat>)
      requires At(Unlocking(p, n, missed)) && p < cluster.sys.pools && value in cluster.s.unlocked
      requires Tally(cluster.sys, cluster.steps, lo, id, Ran, ran)
      requires Tally(cluster.sys, cluster.steps, lo, id, Answered, heard)
      modifies cluster
      ensures At(Unlocking(p + 1, n', missed')) && old(cluster.steps) <= cluster.steps
      ensures value in cluster.s.unlocked && cluster.s.unlocked[value] == old(cluster.s.unlocked[value])
      ensures Tally(cluster.sys, cluster.steps, lo, id, Ran, ran')
      ensures Tally(cluster.sys, cluster.steps, lo, id, Answered, heard')
      ensures (ran' == ran + {p} && missed' == missed) || (ran' == ran && missed' == missed + {p})
      ensures (heard' == heard + {p} && n' == n + 1) || (heard' == heard && n' == n)
    {
      hide Tally, Happened;
      cluster.Others(id);
      TallyQuiet(cluster.sys, old(cluster.steps), cluster.steps, lo, id, Ran, ran);
      TallyQuiet(cluster.sys, old(cluster.steps), cluster.steps, lo, id, Answered, heard);
      var deleting: bool := *;
      var hearing: bool := *;
      n', heard' := n, heard;
      ghost var steps, s := cluster.steps, cluster.s;
      cluster.Perform(Do(id, UnlockRelease(deleting, hearing)));
      if deleting && hearing {
        n' := n + 1;
        heard' := heard + {p};
      }
      missed' := cluster.s.clients[id].phase.missed;
      ran' := if deleting then ran + {p} else ran;
      TallyCommand(cluster.sys, steps, s, UnlockRelease(deleting, hearing), lo, id, Ran, ran);
      TallyCommand(cluster.sys, steps, s, UnlockRelease(deleting, hearing), lo, id, Answered, heard);
    }

    /** Unlock.  It ends every promise of its value at once; `missed` are exactly the pools that did not run
        the release, so the value is on no other pool.  It returns true exactly when more than half of the
        pools ran the release and were heard. */
    method Unlock() returns (ok: bool, ghost missed: set<nat>, ghost heard: set<nat>)
      requires Valid()
      modifies cluster
      ensures Valid() && value == old(value) && until == old(until) && old(cluster.steps) <= cluster.steps
      ensures value in cluster.s.unlocked && cluster.s.unlocked[value] <= old(cluster.s.now)
      ensures MissedOnly(cluster.sys, cluster.steps, |old(cluster.steps)|, id, missed)
      ensures Tally(cluster.sys, cluster.steps, |old(cluster.steps)|, id, Answered, heard)
      ensures ok <==> 2 * |heard| > cluster.sys.pools
      ensures OnlyOn(value, missed)
      ensures ok ==> 2 * |missed| < cluster.sys.pools
    {
      Known(Idle);
      hide Tally, Happened, MissedOnly;
      ghost var before := cluster.steps;
      cluster.Perform(Do(id, BeginUnlock));
      var n;
      n, missed, heard := UnlockAll();
      Known(Unlocking(cluster.sys.pools, n, missed));
      QuorumIsMajority(cluster.sys, n);
      TallyStep(cluster.sys, cluster.steps, Do(id, EndUnlock), |before| + 1, id, Answered, heard);
      MissedQuiet(cluster.sys, cluster.steps, Do(id, EndUnlock), |before| + 1, id, missed);
      cluster.Perform(Do(id, EndUnlock));
      SinceStart(before, BeginUnlock, Answered, heard);
      MissedSinceStart(before, BeginUnlock, missed);
      ok := n >= cluster.sys.Quorum();
    }

    // The step that starts a call is no command.
    lemma SinceStart(before: seq<Step>, start: Action, event: Event, pools: set<nat>)
      requires before + [Do(id, start)] <= cluster.steps && !Commands(start)
      requires Tally(cluster.sys, cluster.steps, |before| + 1, id, event, pools)
      ensures Tally(cluster.sys, cluster.steps, |before|, id, event, pools)
    {
      FirstIsNothing(cluster.sys, cluster.steps, |before|, id, event);
      hide Did;
    }

    lemma MissedSinceStart(before: seq<Step>, start: Action, missed: set<nat>)
      requires before + [Do(id, start)] <= cluster.steps && !Commands(start)
      requires MissedOnly(cluster.sys, cluster.steps, |before| + 1, id, missed)
      ensures MissedOnly(cluster.sys, cluster.steps, |before|, id, missed)
    {
      FirstIsNothing(cluster.sys, cluster.steps, |before|, id, Ran);
      hide Did;
    }

    // The loop of Extend: touchScript on every pool, counting the keys renewed.
    method ExtendAll(ghost start: int) returns (n: nat, ghost touched: set<nat>)
      requires At(Extending(start, 0, 0, {}))
      modifies cluster
      ensures At(Extending(start, cluster.sys.pools, n, touched)) && old(cluster.steps) <= cluster.steps
      ensures Tally(cluster.sys, cluster.steps, |old(cluster.steps)|, id, Renewed, touched)
      ensures OnlyOthers(old(cluster.s.claims), cluster.s.claims, id)
    {
      hide Exec, Tally, Happened;
      ghost var lo := |cluster.steps|;
      n, touched := 0, {};
      TallyNothing(cluster.sys, cluster.steps, id, Renewed);
      for p := 0 to cluster.sys.pools
        invariant At(Extending(start, p, n, touched)) && old(cluster.steps) <= cluster.steps
        invariant Tally(cluster.sys, cluster.steps, lo, id, Renewed, touched)
        invariant OnlyOthers(old(cluster.s.claims), cluster.s.claims, id)
      {
        n, touched := ExtendOne(start, p, n, touched, lo);
      }
    }

    // touchScript on one pool.
    method ExtendOne(ghost start: int, p: nat, n: nat, ghost touched: set<nat>, ghost lo: nat)
      returns (n': nat, ghost touched': set<nat>)
      requires At(Extending(start, p, n, touched)) && p < cluster.sys.pools
      requires Tally(cluster.sys, cluster.steps, lo, id, Renewed, touched)
      modifies cluster
      ensures At(Extending(start, p + 1, n', touched')) && old(cluster.steps) <= cluster.steps
      ensures Tally(cluster.sys, cluster.steps, lo, id, Renewed, touched')
      ensures OnlyOthers(old(cluster.s.claims), cluster.s.claims, id)
    {
      hide Tally, Happened;
      cluster.Others(id);
      TallyQuiet(cluster.sys, old(cluster.steps), cluster.steps, lo, id, Renewed, touched);
      var ran: bool := *;
      var heard: bool := *;
      var cell := cluster.s.cells[p];
      n' := n;
      if ran && heard && cell.Held? && cell.value == value && cluster.sys.mutexes[id].Lease() > 0 {
        n' := n + 1;
      }
      ghost var steps, s := cluster.steps, cluster.s;
      cluster.Perform(Do(id, Touch(ran, heard)));
      touched' := cluster.s.clients[id].phase.touched;
      TallyCommand(cluster.sys, steps, s, Touch(ran, heard), lo, id, Renewed, touched);
    }

    /** Extend.  It returns true exactly when more than half of the pools renewed the key: `touched` are
        exactly the pools that ran the script while they stored the value, and were heard.  True promises the
        lock for a whole new lease from the start of the call; the deadline the Mutex remembers stays. */
    method Extend() returns (ok: bool, ghost touched: set<nat>)
      requires Valid()
      modifies cluster
      ensures Valid() && value == old(value) && until == old(until) && old(cluster.steps) <= cluster.steps
      ensures Tally(cluster.sys, cluster.steps, |old(cluster.steps)|, id, Renewed, touched)
      ensures ok <==> 2 * |touched| > cluster.sys.pools
      ensures ok ==> |cluster.s.claims| > |old(cluster.s.claims)|
      ensures ok ==> (var claim := cluster.s.claims[|cluster.s.claims| - 1];
        && claim.owner == id && claim.value == value && claim.extension && claim.from == cluster.s.now
        && claim.until == old(cluster.s.now) + cluster.sys.mutexes[id].Lease() - cluster.sys.skew)
      ensures !ok ==> OnlyOthers(old(cluster.s.claims), cluster.s.claims, id)
    {
      hide Tally, Happened;
      ghost var before := cluster.steps;
      var start := cluster.s.now;
      cluster.Perform(Do(id, BeginExtend));
      var n;
      n, touched := ExtendAll(start);
      Known(Extending(start, cluster.sys.pools, n, touched));
      TouchedIsCounted(cluster.sys, cluster.s, id);
      QuorumIsMajority(cluster.sys, n);
      TallyStep(cluster.sys, cluster.steps, Do(id, EndExtend), |before| + 1, id, Renewed, touched);
      cluster.Perform(Do(id, EndExtend));
      SinceStart(before, BeginExtend, Renewed, touched);
      ok := n >= cluster.sys.Quorum();
    }
  }
}
