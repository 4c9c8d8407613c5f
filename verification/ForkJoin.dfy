/**
 * The concurrency pattern two plugins share: a loop starts one goroutine per element; each computes
 * on its own, then updates a shared value under a mutex and signals a WaitGroup the starter waits for.
 * Reading and writing the shared value are separate steps, so losing an update is a possibility that
 * the lock has to rule out.
 */
module ForkJoin {

  datatype Phase = NotStarted | Computing | Waiting | Holding | Loaded | Stored | Released | Signalled

  datatype Action =
    | Spawn | Compute(i: nat) | Acquire(i: nat) | Load(i: nat) | Store(i: nat) | Release(i: nat) | Signal(i: nat)

  /**
   * The state between two steps. `copy` is what each goroutine last read of the shared value, `counter`
   * the WaitGroup, and `log` records, for the proof, who has stored so far.
   */
  datatype State<S> = State(
    spawned: nat, phases: seq<Phase>, copies: seq<S>, lock: bool, shared: S, counter: int, log: seq<nat>)

  /**
   * One program: n goroutines, the update each one makes, the initial shared value, and whether the
   * WaitGroup is raised once before the loop or once in every iteration.
   */
  datatype Program<!S(!new)> = Program(n: nat, update: (nat, S) -> S, initial: S, addUpFront: bool) {

    function Start(): State<S> {
      State(0, seq(n, i => NotStarted), seq(n, i => initial), false, initial, if addUpFront then n else 0, [])
    }

    predicate Shaped(s: State<S>) {
      s.spawned <= n && |s.phases| == n && |s.copies| == n
    }

    predicate Enabled(s: State<S>, a: Action)
      requires Shaped(s)
    {
      match a
      case Spawn => s.spawned < n
      case Compute(i) => i < n && s.phases[i] == Computing
      case Acquire(i) => i < n && s.phases[i] == Waiting && !s.lock
      case Load(i) => i < n && s.phases[i] == Holding
      case Store(i) => i < n && s.phases[i] == Loaded
      case Release(i) => i < n && s.phases[i] == Stored
      case Signal(i) => i < n && s.phases[i] == Released
    }

    function Next(s: State<S>, a: Action): (s': State<S>)
      requires Shaped(s) && Enabled(s, a)
      ensures Shaped(s')
    {
      match a
      case Spawn =>
        s.(spawned := s.spawned + 1, phases := s.phases[s.spawned := Computing],
           counter := if addUpFront then s.counter else s.counter + 1)
      case Compute(i) => s.(phases := s.phases[i := Waiting])
      case Acquire(i) => s.(phases := s.phases[i := Holding], lock := true)
      case Load(i) => s.(phases := s.phases[i := Loaded], copies := s.copies[i := s.shared])
      case Store(i) => s.(phases := s.phases[i := Stored], shared := update(i, s.copies[i]), log := s.log + [i])
      case Release(i) => s.(phases := s.phases[i := Released], lock := false)
      case Signal(i) => s.(phases := s.phases[i := Signalled], counter := s.counter - 1)
    }

    /** The starter has left its loop and found the counter at zero. */
    predicate Joined(s: State<S>) {
      s.spawned == n && s.counter == 0
    }

    ghost predicate Steps(p: State<S>, a: Action, s: State<S>) {
      Shaped(p) && Enabled(p, a) && s == Next(p, a)
    }

    /** s is reached by taking the steps in order. */
    ghost predicate Reaches(steps: seq<Action>, s: State<S>)
      decreases |steps|
    {
      if steps == [] then s == Start()
      else exists p :: Shaped(p) && Reaches(steps[..|steps| - 1], p) && Steps(p, steps[|steps| - 1], s)
    }

    /** The updates of the logged goroutines, one after the other. */
    function Replay(log: seq<nat>): S {
      if log == [] then initial else update(log[|log| - 1], Replay(log[..|log| - 1]))
    }

    // ---------- the invariant ----------

    predicate Critical(p: Phase) {
      p in {Holding, Loaded, Stored}
    }

    ghost predicate Phased(s: State<S>) {
      && Shaped(s)
      && (forall i :: s.spawned <= i < n ==> s.phases[i] == NotStarted)
      && (forall i :: 0 <= i < s.spawned ==> s.phases[i] != NotStarted)
      && Exclusive(s.phases, s.lock)
    }

    /** At most one goroutine is in the critical section, and one is iff the mutex is locked. */
    ghost predicate Exclusive(phases: seq<Phase>, lock: bool) {
      && (forall i, j :: 0 <= i < j < |phases| && Critical(phases[i]) ==> !Critical(phases[j]))
      && (lock <==> exists i :: 0 <= i < |phases| && Critical(phases[i]))
    }

    ghost predicate Logged(s: State<S>)
      requires Shaped(s)
    {
      && (forall k :: 0 <= k < |s.log| ==> s.log[k] < n && s.phases[s.log[k]] in {Stored, Released, Signalled})
      && (forall i :: 0 <= i < n && s.phases[i] in {Stored, Released, Signalled} ==> i in s.log)
      && (forall k, l :: 0 <= k < l < |s.log| ==> s.log[k] != s.log[l])
    }

    ghost predicate Linear(s: State<S>)
      requires Shaped(s)
    {
      && s.shared == Replay(s.log)
      && (forall i :: 0 <= i < n && s.phases[i] == Loaded ==> s.copies[i] == s.shared)
    }

    function Unsignalled(phases: seq<Phase>): nat {
      if phases == [] then 0
      else Unsignalled(phases[..|phases| - 1]) + if phases[|phases| - 1] == Signalled then 0 else 1
    }

    ghost predicate Counted(s: State<S>)
      requires Shaped(s)
    {
      s.counter == if addUpFront then Unsignalled(s.phases) else Unsignalled(s.phases) - (n - s.spawned)
    }

    ghost predicate Inv(s: State<S>) {
      Phased(s) && Logged(s) && Linear(s) && Counted(s)
    }

    lemma {:induction false} UnsignalledUpdate(phases: seq<Phase>, i: nat, p: Phase)
      requires i < |phases|
      ensures Unsignalled(phases[i := p]) ==
        Unsignalled(phases) + (if p == Signalled then 0 else 1) - (if phases[i] == Signalled then 0 else 1)
    {
      var m := |phases| - 1;
      if i < m {
        UnsignalledUpdate(phases[..m], i, p);
        assert phases[i := p][..m] == phases[..m][i := p];
      } else {
        assert phases[i := p][..m] == phases[..m];
      }
    }

    lemma {:induction false} UnsignalledBound(phases: seq<Phase>)
      ensures Unsignalled(phases) <= |phases|
      ensures (forall i :: 0 <= i < |phases| ==> phases[i] == NotStarted) ==> Unsignalled(phases) == |phases|
      ensures Unsignalled(phases) == 0 ==> forall i :: 0 <= i < |phases| ==> phases[i] == Signalled
    {
      if phases != [] { UnsignalledBound(phases[..|phases| - 1]); }
    }

    lemma StartInv()
      ensures Inv(Start())
    {
      UnsignalledBound(Start().phases);
    }

    lemma ExclusiveUpdate(phases: seq<Phase>, lock: bool, i: nat, p: Phase)
      requires i < |phases| && Exclusive(phases, lock)
      ensures Critical(p) == Critical(phases[i]) ==> Exclusive(phases[i := p], lock)
      ensures !lock && Critical(p) ==> Exclusive(phases[i := p], true)
      ensures Critical(phases[i]) && !Critical(p) ==> Exclusive(phases[i := p], false)
    {
      var phases' := phases[i := p];
      assert Critical(p) ==> Critical(phases'[i]);
      if k :| 0 <= k < |phases| && Critical(phases[k]) {
        assert k != i ==> Critical(phases'[k]);
      }
    }

    lemma NextPhased(s: State<S>, a: Action)
      requires Phased(s) && Enabled(s, a)
      ensures Phased(Next(s, a))
    {
      var i := if a.Spawn? then s.spawned else a.i;
      ExclusiveUpdate(s.phases, s.lock, i, Next(s, a).phases[i]);
    }

    lemma NextLogged(s: State<S>, a: Action)
      requires Phased(s) && Logged(s) && Enabled(s, a)
      ensures Logged(Next(s, a))
    {
      hide Exclusive;
      var s' := Next(s, a);
      if a.Store? {
        assert a.i !in s.log;
        assert s'.log == s.log + [a.i];
      } else {
        assert s'.log == s.log;
      }
    }

    lemma NextLinear(s: State<S>, a: Action)
      requires Phased(s) && Linear(s) && Enabled(s, a)
      ensures Linear(Next(s, a))
    {
      if a.Store? {
        assert (s.log + [a.i])[..|s.log|] == s.log;
      }
    }

    lemma NextCounted(s: State<S>, a: Action)
      requires Phased(s) && Counted(s) && Enabled(s, a)
      ensures Counted(Next(s, a))
    {
      var i := if a.Spawn? then s.spawned else a.i;
      UnsignalledUpdate(s.phases, i, Next(s, a).phases[i]);
    }

    /** The invariant holds in every state of every interleaving. */
    lemma {:induction false} ReachedInv(steps: seq<Action>, s: State<S>)
      requires Reaches(steps, s)
      ensures Inv(s)
      decreases |steps|
    {
      if steps == [] {
        StartInv();
      } else {
        var a := steps[|steps| - 1];
        var p :| Shaped(p) && Reaches(steps[..|steps| - 1], p) && Steps(p, a, s);
        ReachedInv(steps[..|steps| - 1], p);
        NextPhased(p, a);
        NextLogged(p, a);
        NextLinear(p, a);
        NextCounted(p, a);
      }
    }

    // ---------- what the starter finds after the wait ----------

    /** log names each of 0..n-1 exactly once. */
    ghost predicate IsOrdering(log: seq<nat>) {
      && |log| == n
      && (forall i :: 0 <= i < n ==> i in log)
      && (forall k :: 0 <= k < |log| ==> log[k] < n)
      && (forall k, l :: 0 <= k < l < |log| ==> log[k] != log[l])
    }

    /**
     * Whatever the interleaving, once the wait is over nobody holds the lock, every goroutine has
     * updated the shared value exactly once, and the value is that of some sequential order.
     */
    lemma JoinIsSequential(steps: seq<Action>, s: State<S>)
      requires Reaches(steps, s) && Joined(s)
      ensures IsOrdering(s.log) && s.shared == Replay(s.log) && !s.lock
      ensures forall i :: 0 <= i < n ==> s.phases[i] == Signalled
    {
      ReachedInv(steps, s);
      UnsignalledBound(s.phases);
      DistinctBelowLength(s.log, n);
    }

    // ---------- every order can happen ----------

    lemma Extend(steps: seq<Action>, s: State<S>, a: Action)
      requires Shaped(s) && Reaches(steps, s) && Enabled(s, a)
      ensures Reaches(steps + [a], Next(s, a))
    {
      assert (steps + [a])[..|steps|] == steps;
      assert Steps(s, a, Next(s, a));
    }

    /** All goroutines are spawned; those in the log have finished and the others have yet to begin. */
    ghost predicate Between(s: State<S>, log: seq<nat>) {
      && Shaped(s) && s.spawned == n && !s.lock && s.log == log && s.shared == Replay(log)
      && forall i :: 0 <= i < n ==> s.phases[i] == if i in log then Signalled else Computing
    }

    lemma {:induction false} SpawnAll(k: nat) returns (steps: seq<Action>, s: State<S>)
      requires k <= n
      ensures Shaped(s) && Reaches(steps, s) && s.spawned == k && !s.lock && s.log == [] && s.shared == initial
      ensures forall i :: 0 <= i < n ==> s.phases[i] == if i < k then Computing else NotStarted
    {
      if k == 0 {
        steps, s := [], Start();
      } else {
        var steps', s' := SpawnAll(k - 1);
        Extend(steps', s', Spawn);
        steps, s := steps' + [Spawn], Next(s', Spawn);
      }
    }

    /** Goroutine i is in the given phase; the others have finished if logged and have yet to begin otherwise. */
    ghost predicate During(s: State<S>, i: nat, p: Phase, log: seq<nat>) {
      && Shaped(s) && i < n && s.spawned == n && s.lock == Critical(p) && s.log == log && s.shared == Replay(log)
      && s.phases[i] == p && (p == Loaded ==> s.copies[i] == s.shared)
      && forall j :: 0 <= j < n && j != i ==> s.phases[j] == if j in log then Signalled else Computing
    }

    /** The one step a goroutine can take in a phase, and the phase it leads to. */
    function StepOf(p: Phase, i: nat): (Action, Phase)
      requires p != NotStarted && p != Signalled
    {
      match p
      case Computing => (Compute(i), Waiting)
      case Waiting => (Acquire(i), Holding)
      case Holding => (Load(i), Loaded)
      case Loaded => (Store(i), Stored)
      case Stored => (Release(i), Released)
      case Released => (Signal(i), Signalled)
    }

    lemma ReplayLonger(log: seq<nat>, i: nat)
      ensures Replay(log + [i]) == update(i, Replay(log))
    {
      assert (log + [i])[..|log|] == log;
    }

    lemma DuringNext(s: State<S>, i: nat, p: Phase, log: seq<nat>)
      requires p != NotStarted && p != Signalled && During(s, i, p, log) && i !in log
      ensures Enabled(s, StepOf(p, i).0)
      ensures p != Loaded && p != Stored && p != Released ==> During(Next(s, StepOf(p, i).0), i, StepOf(p, i).1, log)
      ensures p == Loaded ==> During(Next(s, StepOf(p, i).0), i, Stored, log + [i])
    {
      hide Replay, Reaches;
      ReplayLonger(log, i);
    }

    lemma DuringDone(s: State<S>, i: nat, p: Phase, log: seq<nat>)
      requires (p == Stored || p == Released) && During(s, i, p, log)
      ensures Enabled(s, StepOf(p, i).0) && During(Next(s, StepOf(p, i).0), i, StepOf(p, i).1, log)
    {
      hide Replay, Reaches;
    }

    lemma Advance(
      steps: seq<Action>, s: State<S>, i: nat, p: Phase, log: seq<nat>)
      returns (steps': seq<Action>, s': State<S>)
      requires p != NotStarted && p != Signalled && Reaches(steps, s) && During(s, i, p, log)
      requires p == Stored || p == Released || i !in log
      ensures Reaches(steps', s') && During(s', i, StepOf(p, i).1, if p == Loaded then log + [i] else log)
    {
      hide Replay, Reaches;
      if p == Stored || p == Released { DuringDone(s, i, p, log); } else { DuringNext(s, i, p, log); }
      Extend(steps, s, StepOf(p, i).0);
      steps', s' := steps + [StepOf(p, i).0], Next(s, StepOf(p, i).0);
    }

    /** One goroutine runs from beginning to end while the others stand still. */
    lemma RunOne(steps: seq<Action>, s: State<S>, i: nat) returns (steps': seq<Action>, s': State<S>)
      requires i < n && i !in s.log && Reaches(steps, s) && Between(s, s.log)
      ensures Reaches(steps', s') && Between(s', s.log + [i])
    {
      hide Reaches, Replay;
      assert During(s, i, Computing, s.log);
      steps', s' := Advance(steps, s, i, Computing, s.log);
      steps', s' := Advance(steps', s', i, Waiting, s.log);
      steps', s' := Advance(steps', s', i, Holding, s.log);
      steps', s' := Advance(steps', s', i, Loaded, s.log);
      steps', s' := Advance(steps', s', i, Stored, s.log + [i]);
      steps', s' := Advance(steps', s', i, Released, s.log + [i]);
    }

    lemma {:induction false} RunAll(log: seq<nat>) returns (steps: seq<Action>, s: State<S>)
      requires forall k :: 0 <= k < |log| ==> log[k] < n
      requires forall k, l :: 0 <= k < l < |log| ==> log[k] != log[l]
      ensures Reaches(steps, s) && Between(s, log)
    {
      if log == [] {
        steps, s := SpawnAll(n);
      } else {
        var m := |log| - 1;
        var steps', s' := RunAll(log[..m]);
        steps, s := RunOne(steps', s', log[m]);
        assert log == log[..m] + [log[m]];
      }
    }

    lemma OrderEndingIn(i: nat)
      requires i < n
      ensures IsOrdering(Others(n, i) + [i])
    {
      var others := Others(n, i);
      assert forall k :: 0 <= k < |others| ==> others[k] in others;
      assert forall x: nat :: x < n ==> x in others || x == i;
      DistinctBelowLength(others + [i], n);
    }

    /** Every sequential order is the result of some interleaving. */
    lemma EveryOrderHappens(log: seq<nat>) returns (steps: seq<Action>, s: State<S>)
      requires IsOrdering(log)
      ensures Reaches(steps, s) && Joined(s) && s.shared == Replay(log)
    {
      steps, s := RunAll(log);
      ReachedInv(steps, s);
      AllSignalled(s.phases);
    }

    // ---------- progress ----------

    function Remaining(p: Phase): nat {
      match p
      case NotStarted => 7 case Computing => 6 case Waiting => 5 case Holding => 4
      case Loaded => 3 case Stored => 2 case Released => 1 case Signalled => 0
    }

    function Work(phases: seq<Phase>): nat {
      if phases == [] then 0 else Work(phases[..|phases| - 1]) + Remaining(phases[|phases| - 1])
    }

    lemma {:induction false} WorkUpdate(phases: seq<Phase>, i: nat, p: Phase)
      requires i < |phases|
      ensures Work(phases[i := p]) == Work(phases) + Remaining(p) - Remaining(phases[i])
    {
      var m := |phases| - 1;
      if i < m {
        WorkUpdate(phases[..m], i, p);
        assert phases[i := p][..m] == phases[..m][i := p];
      } else {
        assert phases[i := p][..m] == phases[..m];
      }
    }

    lemma {:induction false} WorkOfFresh(phases: seq<Phase>)
      requires forall i :: 0 <= i < |phases| ==> phases[i] == NotStarted
      ensures Work(phases) == 7 * |phases|
    {
      if phases != [] { WorkOfFresh(phases[..|phases| - 1]); }
    }

    lemma NextWork(s: State<S>, a: Action)
      requires Phased(s) && Enabled(s, a)
      ensures Work(Next(s, a).phases) == Work(s.phases) - 1
    {
      var i := if a.Spawn? then s.spawned else a.i;
      WorkUpdate(s.phases, i, Next(s, a).phases[i]);
    }

    /** Every step is progress: no run takes more than seven steps per goroutine. */
    lemma {:induction false} RunsAreShort(steps: seq<Action>, s: State<S>)
      requires Reaches(steps, s)
      ensures |steps| + Work(s.phases) == 7 * n
      decreases |steps|
    {
      if steps == [] {
        WorkOfFresh(s.phases);
      } else {
        var a := steps[|steps| - 1];
        var p :| Shaped(p) && Reaches(steps[..|steps| - 1], p) && Steps(p, a, s);
        RunsAreShort(steps[..|steps| - 1], p);
        ReachedInv(steps[..|steps| - 1], p);
        NextWork(p, a);
      }
    }

    lemma StuckPhases(s: State<S>)
      requires Phased(s) && forall a :: !Enabled(s, a)
      ensures s.spawned == n && forall i :: 0 <= i < n ==> s.phases[i] == Signalled
    {
      assert !Enabled(s, Spawn);
      forall i: nat | i < n ensures s.phases[i] == Signalled || s.phases[i] == Waiting {
        assert !Enabled(s, Compute(i)) && !Enabled(s, Load(i)) && !Enabled(s, Store(i));
        assert !Enabled(s, Release(i)) && !Enabled(s, Signal(i));
      }
      forall i: nat | i < n ensures s.phases[i] != Waiting {
        assert !Enabled(s, Acquire(i));
      }
    }

    /** No deadlock: a run that cannot be continued has passed the wait. */
    lemma StuckMeansJoined(steps: seq<Action>, s: State<S>)
      requires Reaches(steps, s) && Shaped(s) && forall a :: !Enabled(s, a)
      ensures Joined(s)
    {
      ReachedInv(steps, s);
      StuckPhases(s);
      AllSignalled(s.phases);
    }

    lemma {:induction false} AllSignalled(phases: seq<Phase>)
      requires forall i :: 0 <= i < |phases| ==> phases[i] == Signalled
      ensures Unsignalled(phases) == 0
    {
      if phases != [] { AllSignalled(phases[..|phases| - 1]); }
    }
  }

  /** 0..n-1 without i. */
  function Others(n: nat, i: nat): (r: seq<nat>)
    ensures forall x: nat :: x in r <==> x < n && x != i
    ensures forall k :: 0 <= k < |r| ==> r[k] < n
    ensures forall k, l :: 0 <= k < l < |r| ==> r[k] != r[l]
  {
    if n == 0 then [] else if n - 1 == i then Others(n - 1, i) else Others(n - 1, i) + [n - 1]
  }

  function Below(n: nat): (r: set<nat>)
    ensures |r| == n && forall i: nat :: i in r <==> i < n
  {
    if n == 0 then {} else Below(n - 1) + {n - 1}
  }

  function Elements(s: seq<nat>): set<nat> {
    set x | x in s
  }

  /** Distinct numbers below n that cover all of them are n in number. */
  lemma DistinctBelowLength(log: seq<nat>, n: nat)
    requires forall i :: 0 <= i < n ==> i in log
    requires forall k :: 0 <= k < |log| ==> log[k] < n
    requires forall k, l :: 0 <= k < l < |log| ==> log[k] != log[l]
    ensures |log| == n
  {
    DistinctCardinality(log);
    assert Elements(log) == Below(n);
  }

  lemma {:induction false} DistinctCardinality(s: seq<nat>)
    requires forall k, l :: 0 <= k < l < |s| ==> s[k] != s[l]
    ensures |Elements(s)| == |s|
  {
    if s != [] {
      var init, last := s[..|s| - 1], s[|s| - 1];
      DistinctCardinality(init);
      assert s == init + [last] && last !in init;
      assert Elements(s) == Elements(init) + {last};
    }
  }
}
