/** What the steps of one Mutex did to the pools, read off a run. */
module RedlockTrace {
  import opened Redlock
  import opened RedlockSafety

  // The state before step k of a run.
  ghost function Before(sys: System, steps: seq<Step>, k: nat): (s: State)
    requires k <= |steps|
    ensures Fits(sys, s)
  {
    Exec(sys, steps[..k]).1
  }

  /** Something that one command of a Mutex did: it set the free key and its OK was heard; it renewed the
      key of the Mutex's value and was heard; a delete script ran; a delete script ran and was heard. */
  datatype Event = Won | Renewed | Ran | Answered

  // Step k is a command of Mutex c to pool p.
  ghost predicate Addresses(sys: System, steps: seq<Step>, k: nat, c: nat, p: nat) {
    && k < |steps| && steps[k].Do? && steps[k].c == c && c < |sys.mutexes| && p < sys.pools
    && Commands(steps[k].action)
    && var phase := Before(sys, steps, k).clients[c].phase;
       (phase.Acquiring? || phase.Releasing? || phase.Unlocking? || phase.Extending?) && phase.next == p
  }

  ghost predicate Happened(sys: System, steps: seq<Step>, k: nat, c: nat, event: Event, p: nat) {
    && Addresses(sys, steps, k, c, p)
    && var s, action := Before(sys, steps, k), steps[k].action;
       match event
       case Won => action == Acquire(true, true) && s.cells[p].Free? && sys.mutexes[c].expiry >= MILLISECOND
       case Renewed =>
         action == Touch(true, true) && HoldsValue(s.cells[p], s.clients[c].value)
         && sys.mutexes[c].expiry >= MILLISECOND
       case Ran => action == Release(true) || (action.UnlockRelease? && action.ran)
       case Answered => action == UnlockRelease(true, true)
  }

  // Some step from lo up to hi did it.
  ghost predicate Did(sys: System, steps: seq<Step>, lo: nat, hi: nat, c: nat, event: Event, p: nat) {
    exists k :: lo <= k < hi && Happened(sys, steps, k, c, event, p)
  }

  predicate Actor(step: Step, c: nat) {
    step.Do? && step.c == c
  }

  // No step from lo on is one of Mutex c.
  predicate Quiet(steps: seq<Step>, lo: nat, c: nat) {
    forall k :: lo <= k < |steps| ==> !Actor(steps[k], c)
  }

  // No step from lo on starts a round of Mutex c.
  predicate NoRound(steps: seq<Step>, lo: nat, c: nat) {
    forall k :: lo <= k < |steps| ==> steps[k] != Do(c, StartRound)
  }

  lemma HappenedStable(
    sys: System, steps: seq<Step>, more: seq<Step>, k: nat, c: nat, event: Event, p: nat)
    requires steps <= more && k < |steps|
    ensures Happened(sys, more, k, c, event, p) <==> Happened(sys, steps, k, c, event, p)
  {
    assert more[..k] == steps[..k];
  }

  lemma DidStable(
    sys: System, steps: seq<Step>, more: seq<Step>, lo: nat, hi: nat, c: nat, event: Event, p: nat)
    requires steps <= more && hi <= |steps|
    ensures Did(sys, more, lo, hi, c, event, p) <==> Did(sys, steps, lo, hi, c, event, p)
  {
    hide Happened;
    forall k | lo <= k < hi
      ensures Happened(sys, more, k, c, event, p) <==> Happened(sys, steps, k, c, event, p)
    {
      HappenedStable(sys, steps, more, k, c, event, p);
    }
  }

  // What others do counts for nothing.
  lemma DidQuiet(sys: System, steps: seq<Step>, more: seq<Step>, lo: nat, c: nat, event: Event, p: nat)
    requires steps <= more && Quiet(more, |steps|, c)
    ensures Did(sys, more, lo, |more|, c, event, p) <==> Did(sys, steps, lo, |steps|, c, event, p)
  {
    DidStable(sys, steps, more, lo, |steps|, c, event, p);
    forall k | |steps| <= k < |more| ensures !Happened(sys, more, k, c, event, p) {
    }
    hide Happened;
  }

  // One more step.
  lemma DidNext(sys: System, steps: seq<Step>, step: Step, lo: nat, c: nat, event: Event, p: nat)
    requires lo <= |steps|
    ensures Did(sys, steps + [step], lo, |steps| + 1, c, event, p)
      <==> Did(sys, steps, lo, |steps|, c, event, p) || Happened(sys, steps + [step], |steps|, c, event, p)
  {
    DidStable(sys, steps, steps + [step], lo, |steps|, c, event, p);
    hide Happened;
  }

  // What a command does to the pool that it addresses, from the state that it is made in.
  ghost predicate Effect(sys: System, s: State, c: nat, action: Action, event: Event)
    requires Fits(sys, s) && c < |s.clients| && CanAct(sys, s, c, action) && Commands(action)
  {
    var cell := s.cells[s.clients[c].phase.next];
    match event
    case Won => action == Acquire(true, true) && cell.Free? && sys.mutexes[c].expiry >= MILLISECOND
    case Renewed =>
      action == Touch(true, true) && HoldsValue(cell, s.clients[c].value) && sys.mutexes[c].expiry >= MILLISECOND
    case Ran => action == Release(true) || (action.UnlockRelease? && action.ran)
    case Answered => action == UnlockRelease(true, true)
  }

  lemma HappenedLast(sys: System, steps: seq<Step>, s: State, c: nat, action: Action, event: Event, p: nat)
    requires Exec(sys, steps) == (true, s) && c < |s.clients| && CanAct(sys, s, c, action)
    ensures Happened(sys, steps + [Do(c, action)], |steps|, c, event, p)
      <==> Commands(action) && p == s.clients[c].phase.next && Effect(sys, s, c, action, event)
  {
    assert (steps + [Do(c, action)])[..|steps|] == steps;
  }

  // A step that is no command did nothing.
  lemma FirstIsNothing(sys: System, steps: seq<Step>, lo: nat, c: nat, event: Event)
    requires lo < |steps| && steps[lo].Do? && !Commands(steps[lo].action)
    ensures forall p ::
      Did(sys, steps, lo, |steps|, c, event, p) <==> Did(sys, steps, lo + 1, |steps|, c, event, p)
  {
    assert forall p :: !Happened(sys, steps, lo, c, event, p);
    hide Happened;
    forall p | Did(sys, steps, lo, |steps|, c, event, p)
      ensures Did(sys, steps, lo + 1, |steps|, c, event, p)
    {
      var k :| lo <= k < |steps| && Happened(sys, steps, k, c, event, p);
      assert k != lo;
    }
  }

  // -------------------------------------------------------------------------------- Attempts

  /** One round of Lock in a run: the steps that start it, read the clock, compute the deadline and decide,
      and the pools that it won. */
  datatype Attempt = Attempt(start: nat, read: nat, computed: nat, verdict: nat, won: set<nat>)

  ghost predicate IsAttempt(sys: System, steps: seq<Step>, c: nat, a: Attempt) {
    && a.start < a.read < a.computed < a.verdict < |steps|
    && steps[a.start] == Do(c, StartRound) && steps[a.read] == Do(c, ReadClock)
    && steps[a.computed] == Do(c, ComputeUntil) && steps[a.verdict] == Do(c, Decide)
    && forall p :: p in a.won <==> Did(sys, steps, a.start, a.read, c, Won, p)
  }

  ghost function Now(sys: System, steps: seq<Step>, k: nat): int
    requires k <= |steps|
  {
    Before(sys, steps, k).now
  }

  /** More than half of the pools were won, and the verdict came before the deadline: the reading of the clock
      plus the expiry, less what had passed and the drift allowance, plus 2ms. */
  ghost predicate Succeeds(sys: System, steps: seq<Step>, c: nat, a: Attempt)
    requires IsAttempt(sys, steps, c, a) && c < |sys.mutexes|
  {
    var my := sys.mutexes[c];
    && 2 * |a.won| > sys.pools
    && Now(sys, steps, a.verdict) < Now(sys, steps, a.read)
         + (my.expiry - (Now(sys, steps, a.computed) - Now(sys, steps, a.start)) - my.Drift() + 2_000_000)
  }

  lemma AttemptStable(sys: System, steps: seq<Step>, more: seq<Step>, c: nat, a: Attempt)
    requires steps <= more && IsAttempt(sys, steps, c, a) && c < |sys.mutexes|
    ensures IsAttempt(sys, more, c, a) && (Succeeds(sys, more, c, a) <==> Succeeds(sys, steps, c, a))
  {
    hide Did;
    forall p ensures p in a.won <==> Did(sys, more, a.start, a.read, c, Won, p) {
      DidStable(sys, steps, more, a.start, a.read, c, Won, p);
    }
    assert more[..a.start] == steps[..a.start] && more[..a.read] == steps[..a.read];
    assert more[..a.computed] == steps[..a.computed] && more[..a.verdict] == steps[..a.verdict];
  }

  lemma NowStable(sys: System, steps: seq<Step>, more: seq<Step>, k: nat)
    requires steps <= more && k <= |steps|
    ensures Now(sys, more, k) == Now(sys, steps, k)
  {
    assert more[..k] == steps[..k];
  }

  // The pools won in the loop of a round are those won before it reads the clock.
  lemma WonInRound(
    sys: System, steps: seq<Step>, more: seq<Step>, lo: nat, read: nat, c: nat, won: set<nat>)
    requires lo <= |steps| <= read <= |more| && steps <= more && Quiet(more[..read], |steps|, c)
    requires forall p :: p in won <==> Did(sys, steps, lo, |steps|, c, Won, p)
    ensures forall p :: p in won <==> Did(sys, more, lo, read, c, Won, p)
  {
    hide Did, Quiet;
    assert steps <= more[..read];
    forall p ensures Did(sys, more, lo, read, c, Won, p) <==> Did(sys, steps, lo, |steps|, c, Won, p) {
      DidQuiet(sys, steps, more[..read], lo, c, Won, p);
      DidStable(sys, more[..read], more, lo, read, c, Won, p);
    }
  }

  /** The rounds of Mutex c from step lo on, in order and without exception. */
  ghost predicate Attempts(sys: System, steps: seq<Step>, lo: nat, c: nat, attempts: seq<Attempt>) {
    && (forall i :: 0 <= i < |attempts| ==> lo <= attempts[i].start && IsAttempt(sys, steps, c, attempts[i]))
    && (forall i, j :: 0 <= i < j < |attempts| ==> attempts[i].verdict < attempts[j].start)
    && (forall k :: lo <= k < |steps| && steps[k] == Do(c, StartRound) ==>
          exists i :: 0 <= i < |attempts| && attempts[i].start == k)
  }

  // The first n of the attempts failed.
  ghost predicate Fail(sys: System, steps: seq<Step>, c: nat, attempts: seq<Attempt>, n: nat)
    requires c < |sys.mutexes| && n <= |attempts|
  {
    forall i :: 0 <= i < n ==> IsAttempt(sys, steps, c, attempts[i]) && !Succeeds(sys, steps, c, attempts[i])
  }

  ghost predicate LastSucceeds(sys: System, steps: seq<Step>, c: nat, attempts: seq<Attempt>)
    requires c < |sys.mutexes|
  {
    && attempts != [] && IsAttempt(sys, steps, c, attempts[|attempts| - 1])
    && Succeeds(sys, steps, c, attempts[|attempts| - 1])
  }

  lemma AttemptsStable(
    sys: System, steps: seq<Step>, more: seq<Step>, lo: nat, c: nat, attempts: seq<Attempt>, n: nat)
    requires Attempts(sys, steps, lo, c, attempts) && lo <= |steps| && steps <= more && c < |sys.mutexes|
    requires n <= |attempts| && Fail(sys, steps, c, attempts, n) && NoRound(more, |steps|, c)
    ensures Attempts(sys, more, lo, c, attempts) && Fail(sys, more, c, attempts, n)
  {
    hide IsAttempt, Succeeds;
    forall i | 0 <= i < |attempts|
      ensures IsAttempt(sys, more, c, attempts[i])
      ensures i < n ==> !Succeeds(sys, more, c, attempts[i])
    {
      AttemptStable(sys, steps, more, c, attempts[i]);
    }
    forall k | lo <= k < |more| && more[k] == Do(c, StartRound)
      ensures exists i :: 0 <= i < |attempts| && attempts[i].start == k
    {
      assert k < |steps| && steps[k] == Do(c, StartRound);
    }
  }

  lemma AttemptsNext(
    sys: System, steps: seq<Step>, more: seq<Step>, lo: nat, c: nat, attempts: seq<Attempt>, a: Attempt)
    requires Attempts(sys, steps, lo, c, attempts) && lo <= |steps| && steps <= more && c < |sys.mutexes|
    requires Fail(sys, steps, c, attempts, |attempts|)
    requires IsAttempt(sys, more, c, a) && a.start == |steps| && NoRound(more, a.start + 1, c)
    ensures Attempts(sys, more, lo, c, attempts + [a]) && Fail(sys, more, c, attempts + [a], |attempts|)
    ensures !Succeeds(sys, more, c, a) ==> Fail(sys, more, c, attempts + [a], |attempts| + 1)
  {
    hide Did, Succeeds;
    forall i | 0 <= i < |attempts|
      ensures IsAttempt(sys, more, c, attempts[i]) && !Succeeds(sys, more, c, attempts[i])
      ensures attempts[i].verdict < a.start
    {
      AttemptStable(sys, steps, more, c, attempts[i]);
    }
    forall k | lo <= k < |more| && more[k] == Do(c, StartRound)
      ensures exists i :: 0 <= i < |attempts + [a]| && (attempts + [a])[i].start == k
    {
      if k < |steps| {
        assert steps[k] == Do(c, StartRound);
        var i :| 0 <= i < |attempts| && attempts[i].start == k;
        assert (attempts + [a])[i].start == k;
      } else {
        assert (attempts + [a])[|attempts|].start == k;
      }
    }
  }
}
