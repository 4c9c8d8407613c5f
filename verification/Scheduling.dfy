/** The agent's job scheduler: two maps kept in step with the entries of a cron. */
module Scheduling {
  import opened Options

  /** A job handler: which collector it runs, and the text of its schedule. */
  datatype Job = Job(collector: string, spec: string)

  datatype Failure = AlreadyExists | NoSpec | InvalidSpec | NotExisting

  datatype Outcome = Ok | Fail(failure: Failure)

  /** The cron library: entries under ids that are drawn from a counter and never used twice. */
  class Cron {
    const parses: string -> bool
    var entries: map<nat, Job>
    var nextID: nat

    constructor (parses: string -> bool)
      ensures this.parses == parses && entries == map[] && nextID == 0
    {
      this.parses := parses;
      entries, nextID := map[], 0;
    }

    method AddJob(spec: string, job: Job) returns (id: Option<nat>)
      modifies this
      ensures !parses(spec) ==> id == None && entries == old(entries) && nextID == old(nextID)
      ensures parses(spec) ==>
        id == Some(nextID) && nextID == old(nextID) + 1 && entries == old(entries)[nextID := job]
    {
      if !parses(spec) { return None; }
      nextID := nextID + 1;
      entries := entries[nextID := job];
      return Some(nextID);
    }

    method Remove(id: nat)
      modifies this`entries
      ensures entries == old(entries) - {id}
    {
      entries := entries - {id};
    }
  }

  // ---------- the scheduler on values ----------

  datatype State = State(jobs: map<string, Job>, cronIDs: map<string, nat>, entries: map<nat, Job>, nextID: nat)

  datatype Operation = Add(name: string, job: Job) | Remove(name: string)

  const EMPTY: State := State(map[], map[], map[], 0)

  function Apply(parses: string -> bool, s: State, op: Operation): (State, Outcome) {
    match op
    case Add(name, job) =>
      if name in s.cronIDs then (s, Fail(AlreadyExists))
      else if job.spec == "" then (s, Fail(NoSpec))
      else if !parses(job.spec) then (s, Fail(InvalidSpec))
      else
        var id := s.nextID + 1;
        (State(s.jobs[name := job], s.cronIDs[name := id], s.entries[id := job], id), Ok)
    case Remove(name) =>
      if name !in s.cronIDs then (s, Fail(NotExisting))
      else (State(s.jobs - {name}, s.cronIDs - {name}, s.entries - {s.cronIDs[name]}, s.nextID), Ok)
  }

  function Run(parses: string -> bool, s: State, ops: seq<Operation>): State
    decreases |ops|
  {
    if ops == [] then s else Run(parses, Apply(parses, s, ops[0]).0, ops[1..])
  }

  function Outcomes(parses: string -> bool, s: State, ops: seq<Operation>): seq<Outcome>
    decreases |ops|
  {
    if ops == [] then []
    else [Apply(parses, s, ops[0]).1] + Outcomes(parses, Apply(parses, s, ops[0]).0, ops[1..])
  }

  /** The maps agree with each other and with the cron. */
  ghost predicate Inv(s: State) {
    && s.jobs.Keys == s.cronIDs.Keys
    && (forall m, n :: m in s.cronIDs && n in s.cronIDs && m != n ==> s.cronIDs[m] != s.cronIDs[n])
    && (forall n :: n in s.cronIDs ==> s.cronIDs[n] in s.entries && s.entries[s.cronIDs[n]] == s.jobs[n])
    && (forall id :: id in s.entries ==> id <= s.nextID && exists n :: n in s.cronIDs && s.cronIDs[n] == id)
  }

  /** The live cron entries are exactly the ids handed out and not yet taken back. */
  lemma InvMeansIdsAreEntries(s: State)
    requires Inv(s)
    ensures s.entries.Keys == s.cronIDs.Values && |s.entries| == |s.jobs|
  {
    assert s.entries.Keys == s.cronIDs.Values;
    InjectiveSize(s.cronIDs);
    assert |s.jobs| == |s.jobs.Keys| && |s.cronIDs| == |s.cronIDs.Keys| && |s.entries| == |s.entries.Keys|;
  }

  lemma {:induction false} InjectiveSize(m: map<string, nat>)
    requires forall x, y :: x in m && y in m && x != y ==> m[x] != m[y]
    ensures |m.Values| == |m.Keys|
    decreases |m|
  {
    if x :| x in m {
      var m' := m - {x};
      assert m == m'[x := m[x]];
      assert |m'.Keys| == |m.Keys - {x}| == |m.Keys| - 1 by { assert m'.Keys == m.Keys - {x}; }
      InjectiveSize(m');
      assert m.Values == m'.Values + {m[x]};
    } else {
      assert m.Values == {};
    }
  }

  lemma AddKeepsInv(parses: string -> bool, s: State, name: string, job: Job)
    requires Inv(s) && Apply(parses, s, Add(name, job)).1 == Ok
    ensures Inv(Apply(parses, s, Add(name, job)).0)
  {
    var s' := Apply(parses, s, Add(name, job)).0;
    forall id | id in s'.entries ensures exists n :: n in s'.cronIDs && s'.cronIDs[n] == id {
      if id == s'.nextID {
        assert s'.cronIDs[name] == id;
      } else {
        var n :| n in s.cronIDs && s.cronIDs[n] == id;
        assert s'.cronIDs[n] == id;
      }
    }
  }

  lemma RemoveKeepsInv(parses: string -> bool, s: State, name: string)
    requires Inv(s) && name in s.cronIDs
    ensures Inv(Apply(parses, s, Remove(name)).0)
  {
    var s' := Apply(parses, s, Remove(name)).0;
    forall id | id in s'.entries ensures exists n :: n in s'.cronIDs && s'.cronIDs[n] == id {
      var n :| n in s.cronIDs && s.cronIDs[n] == id;
      assert s'.cronIDs[n] == id;
    }
  }

  /** A call keeps the invariant, and a failing call changes nothing at all. */
  lemma ApplyKeepsInv(parses: string -> bool, s: State, op: Operation)
    requires Inv(s)
    ensures Inv(Apply(parses, s, op).0)
    ensures Apply(parses, s, op).1.Fail? ==> Apply(parses, s, op).0 == s
  {
    if Apply(parses, s, op).1 == Ok {
      match op
      case Add(name, job) => AddKeepsInv(parses, s, name, job);
      case Remove(name) => RemoveKeepsInv(parses, s, name);
    }
  }

  /** Over every sequence of calls, succeeding or failing, the three stay in step. */
  lemma {:induction false} RunKeepsInv(parses: string -> bool, s: State, ops: seq<Operation>)
    requires Inv(s)
    ensures Inv(Run(parses, s, ops))
    decreases |ops|
  {
    if ops != [] {
      ApplyKeepsInv(parses, s, ops[0]);
      RunKeepsInv(parses, Apply(parses, s, ops[0]).0, ops[1..]);
    }
  }

  // ---------- what a caller sees ----------

  /** The scheduler reduced to a table of named jobs, without ids or cron. */
  function ApplyToJobs(parses: string -> bool, jobs: map<string, Job>, op: Operation): (map<string, Job>, Outcome) {
    match op
    case Add(name, job) =>
      if name in jobs then (jobs, Fail(AlreadyExists))
      else if job.spec == "" then (jobs, Fail(NoSpec))
      else if !parses(job.spec) then (jobs, Fail(InvalidSpec))
      else (jobs[name := job], Ok)
    case Remove(name) =>
      if name !in jobs then (jobs, Fail(NotExisting)) else (jobs - {name}, Ok)
  }

  function RunJobs(
    parses: string -> bool, jobs: map<string, Job>, ops: seq<Operation>): (map<string, Job>, seq<Outcome>)
    decreases |ops|
  {
    if ops == [] then (jobs, [])
    else
      var (next, outcome) := ApplyToJobs(parses, jobs, ops[0]);
      var (last, outcomes) := RunJobs(parses, next, ops[1..]);
      (last, [outcome] + outcomes)
  }

  lemma ApplyRefinesTable(parses: string -> bool, s: State, op: Operation)
    requires Inv(s)
    ensures (Apply(parses, s, op).0.jobs, Apply(parses, s, op).1) == ApplyToJobs(parses, s.jobs, op)
  {
  }

  /** When an addition fails and how, and what one that succeeds changes. */
  lemma AddMeaning(parses: string -> bool, s: State, name: string, job: Job)
    requires Inv(s)
    ensures var (after, outcome) := Apply(parses, s, Add(name, job));
      && (outcome == Fail(AlreadyExists) <==> name in s.jobs)
      && (outcome == Fail(NoSpec) <==> name !in s.jobs && job.spec == "")
      && (outcome == Fail(InvalidSpec) <==> name !in s.jobs && job.spec != "" && !parses(job.spec))
      && (outcome == Ok <==> name !in s.jobs && job.spec != "" && parses(job.spec))
      && (forall n :: n in after.jobs <==> n in s.jobs || (n == name && outcome == Ok))
      && (forall n :: n in s.jobs ==> after.jobs[n] == s.jobs[n])
      && (outcome == Ok ==> after.jobs[name] == job)
  {
  }

  /** Likewise for removals. */
  lemma RemoveMeaning(parses: string -> bool, s: State, name: string)
    requires Inv(s)
    ensures var (after, outcome) := Apply(parses, s, Remove(name));
      && (outcome == Fail(NotExisting) <==> name !in s.jobs) && (outcome == Ok <==> name in s.jobs)
      && (forall n :: n in after.jobs <==> n in s.jobs && n != name)
      && (forall n :: n in after.jobs ==> after.jobs[n] == s.jobs[n])
  {
  }

  /** Over every sequence of calls, jobs and outcomes are those of the plain table. */
  lemma {:induction false} RunRefinesTable(parses: string -> bool, s: State, ops: seq<Operation>)
    requires Inv(s)
    ensures (Run(parses, s, ops).jobs, Outcomes(parses, s, ops)) == RunJobs(parses, s.jobs, ops)
    decreases |ops|
  {
    if ops != [] {
      ApplyRefinesTable(parses, s, ops[0]);
      ApplyKeepsInv(parses, s, ops[0]);
      RunRefinesTable(parses, Apply(parses, s, ops[0]).0, ops[1..]);
    }
  }

  // ---------- undoing ----------

  /** Calls on other names neither notice a further job nor touch it. */
  lemma {:induction false} OthersIgnoreJob(
    parses: string -> bool, jobs: map<string, Job>, name: string, job: Job, ops: seq<Operation>)
    requires name !in jobs && forall op :: op in ops ==> op.name != name
    ensures var (plain, with) := (RunJobs(parses, jobs, ops), RunJobs(parses, jobs[name := job], ops));
      name !in plain.0 && with == (plain.0[name := job], plain.1)
    decreases |ops|
  {
    if ops != [] {
      var (next, outcome) := ApplyToJobs(parses, jobs, ops[0]);
      assert ops[0].name != name;
      assert ApplyToJobs(parses, jobs[name := job], ops[0]) == (next[name := job], outcome) by {
        assert jobs[name := job] - {ops[0].name} == (jobs - {ops[0].name})[name := job];
        if ops[0].Add? {
          assert jobs[name := job][ops[0].name := ops[0].job] == jobs[ops[0].name := ops[0].job][name := job];
        }
      }
      OthersIgnoreJob(parses, next, name, job, ops[1..]);
    }
  }

  lemma AddedThenOthers(parses: string -> bool, s: State, name: string, job: Job, between: seq<Operation>)
    requires Inv(s) && Apply(parses, s, Add(name, job)).1 == Ok
    requires forall op :: op in between ==> op.name != name
    ensures var added := Apply(parses, s, Add(name, job)).0;
      var t := Run(parses, added, between);
      && Inv(t) && name !in Run(parses, s, between).jobs && t.jobs == Run(parses, s, between).jobs[name := job]
      && Outcomes(parses, added, between) == Outcomes(parses, s, between)
  {
    var added := Apply(parses, s, Add(name, job)).0;
    ApplyRefinesTable(parses, s, Add(name, job));
    ApplyKeepsInv(parses, s, Add(name, job));
    hide Apply, RunJobs, Inv, Run, Outcomes;
    RunRefinesTable(parses, s, between);
    RunRefinesTable(parses, added, between);
    OthersIgnoreJob(parses, s.jobs, name, job, between);
    RunKeepsInv(parses, added, between);
  }

  /**
   * RemoveJob undoes a successful AddJob, whatever calls on other names come in between: the jobs are
   * those that the calls in between alone would have left, and these calls had the same outcomes.
   */
  lemma RemoveUndoesAdd(parses: string -> bool, s: State, name: string, job: Job, between: seq<Operation>)
    requires Inv(s) && Apply(parses, s, Add(name, job)).1 == Ok
    requires forall op :: op in between ==> op.name != name
    ensures var added := Apply(parses, s, Add(name, job)).0;
      var (after, outcome) := Apply(parses, Run(parses, added, between), Remove(name));
      && outcome == Ok && Inv(after) && after.jobs == Run(parses, s, between).jobs
      && Outcomes(parses, added, between) == Outcomes(parses, s, between)
  {
    hide Apply, RunJobs, Inv, Run, Outcomes;
    AddedThenOthers(parses, s, name, job, between);
    var t := Run(parses, Apply(parses, s, Add(name, job)).0, between);
    ApplyRefinesTable(parses, t, Remove(name));
    ApplyKeepsInv(parses, t, Remove(name));
    assert Run(parses, s, between).jobs[name := job] - {name} == Run(parses, s, between).jobs;
  }

  lemma AddedThenRemoved<K, V>(m: map<K, V>, k: K, v: V)
    requires k !in m
    ensures m[k := v] - {k} == m
  {
  }

  /** With nothing in between, the maps and the cron's entries are exactly as before; only an id is used up. */
  lemma RemoveRestores(parses: string -> bool, s: State, name: string, job: Job)
    requires Inv(s) && Apply(parses, s, Add(name, job)).1 == Ok
    ensures var (after, outcome) := Apply(parses, Apply(parses, s, Add(name, job)).0, Remove(name));
      outcome == Ok && after == s.(nextID := s.nextID + 1)
  {
    var id := s.nextID + 1;
    assert name !in s.cronIDs && name !in s.jobs && id !in s.entries;
    AddedThenRemoved(s.jobs, name, job);
    AddedThenRemoved(s.cronIDs, name, id);
    AddedThenRemoved(s.entries, id, job);
  }

  // ---------- the object ----------

  class Scheduler {
    var jobs: map<string, Job>
    var cronIDs: map<string, nat>
    const c: Cron

    ghost function View(): State
      reads this, c
    {
      State(jobs, cronIDs, c.entries, c.nextID)
    }

    constructor (parses: string -> bool)
      ensures View() == EMPTY && c.parses == parses && fresh(c)
    {
      c := new Cron(parses);
      jobs, cronIDs := map[], map[];
    }

    method AddJob(jobName: string, job: Job) returns (outcome: Outcome)
      modifies this, c
      ensures (View(), outcome) == Apply(c.parses, old(View()), Add(jobName, job))
    {
      if jobName in cronIDs {
        return Fail(AlreadyExists);
      }
      var spec := job.spec;
      if spec == "" {
        return Fail(NoSpec);
      }
      var entryID := c.AddJob(spec, job);
      if entryID.None? {
        return Fail(InvalidSpec);
      }
      jobs := jobs[jobName := job];
      cronIDs := cronIDs[jobName := entryID.value];
      return Ok;
    }

    method RemoveJob(jobName: string) returns (outcome: Outcome)
      modifies this, c
      ensures (View(), outcome) == Apply(c.parses, old(View()), Remove(jobName))
    {
      if jobName !in cronIDs {
        return Fail(NotExisting);
      }
      var entryID := cronIDs[jobName];
      c.Remove(entryID);
      jobs := jobs - {jobName};
      cronIDs := cronIDs - {jobName};
      return Ok;
    }

    /** One block of InitScheduler: an interval that is neither empty nor "0" gets its job; false is a fatal error. */
    method Schedule(
      name: string, interval: string, ghost settings: seq<(string, string)>, ghost k: nat)
      returns (ok: bool)
      requires k < |settings| && settings[k] == (name, interval) && DistinctSettings(settings)
      requires Started(c.parses, View(), settings[..k])
      modifies this, c
      ensures if ok then Started(c.parses, View(), settings[..k + 1]) else SomeInvalid(c.parses, settings)
    {
      hide Started, SomeInvalid, Inv, Apply;
      NextBlock(c.parses, View(), settings, k);
      ok := true;
      if interval != "" && interval != "0" {
        var sj := Job(name, interval);
        var err := AddJob(name, sj);
        if err != Ok {
          ok := false;
        }
      }
    }
  }

  // ---------- start-up ----------

  datatype Config = Config(
    outdated: string, getAll: string, kubeScore: string, rakkess: string,
    kubePreUpgrade: string, trivyImage: string, trivySbom: string, trivyClusterScan: string)
  {
    function Settings(): seq<(string, string)> {
      [("Outdated", outdated), ("GetALL", getAll), ("KubeScore", kubeScore), ("Rakkess", rakkess),
       ("KubePreUpgrade", kubePreUpgrade), ("Trivyimage", trivyImage), ("Trivysbom", trivySbom),
       ("Trivycluster", trivyClusterScan)]
    }
  }

  predicate Wanted(interval: string) {
    interval != "" && interval != "0"
  }

  /** Exactly the jobs of the wanted intervals. */
  ghost predicate HasWantedJobs(jobs: map<string, Job>, settings: seq<(string, string)>) {
    && (forall n :: n in jobs ==> exists k :: 0 <= k < |settings| && settings[k].0 == n && Wanted(settings[k].1))
    && (forall k :: 0 <= k < |settings| && Wanted(settings[k].1) ==>
          settings[k].0 in jobs && jobs[settings[k].0] == Job(settings[k].0, settings[k].1))
  }

  ghost predicate SomeInvalid(parses: string -> bool, settings: seq<(string, string)>) {
    exists k :: 0 <= k < |settings| && Wanted(settings[k].1) && !parses(settings[k].1)
  }

  ghost predicate DistinctSettings(settings: seq<(string, string)>) {
    forall i, j :: 0 <= i < j < |settings| ==> settings[i].0 != settings[j].0
  }

  /** The first blocks have run without a fatal error. */
  ghost predicate Started(parses: string -> bool, s: State, settings: seq<(string, string)>) {
    Inv(s) && HasWantedJobs(s.jobs, settings) && !SomeInvalid(parses, settings)
  }

  lemma NextBlock(parses: string -> bool, s: State, settings: seq<(string, string)>, k: nat)
    requires k < |settings| && DistinctSettings(settings) && Started(parses, s, settings[..k])
    ensures !Wanted(settings[k].1) ==> Started(parses, s, settings[..k + 1])
    ensures Wanted(settings[k].1) ==>
      var (s', outcome) := Apply(parses, s, Add(settings[k].0, Job(settings[k].0, settings[k].1)));
      if outcome == Ok then Started(parses, s', settings[..k + 1]) else SomeInvalid(parses, settings)
  {
    var before, after := settings[..k], settings[..k + 1];
    assert after == before + [settings[k]];
    if Wanted(settings[k].1) {
      var op := Add(settings[k].0, Job(settings[k].0, settings[k].1));
      ApplyRefinesTable(parses, s, op);
      ApplyKeepsInv(parses, s, op);
      WantedExtends(s.jobs, settings, k);
    }
  }

  lemma WantedExtends(jobs: map<string, Job>, settings: seq<(string, string)>, k: nat)
    requires k < |settings| && DistinctSettings(settings) && HasWantedJobs(jobs, settings[..k]) && Wanted(settings[k].1)
    ensures settings[k].0 !in jobs
    ensures HasWantedJobs(jobs[settings[k].0 := Job(settings[k].0, settings[k].1)], settings[..k + 1])
  {
    var after := settings[..k + 1];
    var jobs' := jobs[settings[k].0 := Job(settings[k].0, settings[k].1)];
    forall n | n in jobs' ensures exists i :: 0 <= i < |after| && after[i].0 == n && Wanted(after[i].1) {
      if n == settings[k].0 {
        assert after[k].0 == n;
      } else {
        var i :| 0 <= i < k && settings[..k][i].0 == n && Wanted(settings[..k][i].1);
        assert after[i].0 == n;
      }
    }
  }

  /** The job is there, with this interval as its schedule, iff the interval is neither empty nor "0". */
  ghost predicate Runs(jobs: map<string, Job>, name: string, interval: string) {
    if interval == "" || interval == "0" then name !in jobs
    else name in jobs && jobs[name] == Job(name, interval)
  }

  /** Every interval of the configuration starts its own job, and no other job is there. */
  ghost predicate RunsConfigured(jobs: map<string, Job>, cfg: Config) {
    && Runs(jobs, "Outdated", cfg.outdated) && Runs(jobs, "GetALL", cfg.getAll)
    && Runs(jobs, "KubeScore", cfg.kubeScore) && Runs(jobs, "Rakkess", cfg.rakkess)
    && Runs(jobs, "KubePreUpgrade", cfg.kubePreUpgrade) && Runs(jobs, "Trivyimage", cfg.trivyImage)
    && Runs(jobs, "Trivysbom", cfg.trivySbom) && Runs(jobs, "Trivycluster", cfg.trivyClusterScan)
    && jobs.Keys <= {"Outdated", "GetALL", "KubeScore", "Rakkess", "KubePreUpgrade", "Trivyimage", "Trivysbom",
                     "Trivycluster"}
  }

  /** The source gives up on this interval. */
  predicate Fatal(parses: string -> bool, interval: string) {
    interval != "" && interval != "0" && !parses(interval)
  }

  predicate SomeFatal(parses: string -> bool, cfg: Config) {
    || Fatal(parses, cfg.outdated) || Fatal(parses, cfg.getAll) || Fatal(parses, cfg.kubeScore)
    || Fatal(parses, cfg.rakkess) || Fatal(parses, cfg.kubePreUpgrade) || Fatal(parses, cfg.trivyImage)
    || Fatal(parses, cfg.trivySbom) || Fatal(parses, cfg.trivyClusterScan)
  }

  lemma InvalidIsFatal(parses: string -> bool, cfg: Config)
    ensures SomeInvalid(parses, cfg.Settings()) <==> SomeFatal(parses, cfg)
  {
    var settings := cfg.Settings();
    forall k | 0 <= k < |settings|
      ensures Fatal(parses, settings[k].1) <==> Wanted(settings[k].1) && !parses(settings[k].1)
    {
    }
    if SomeFatal(parses, cfg) {
      assert Fatal(parses, settings[0].1) || Fatal(parses, settings[1].1) || Fatal(parses, settings[2].1)
        || Fatal(parses, settings[3].1) || Fatal(parses, settings[4].1) || Fatal(parses, settings[5].1)
        || Fatal(parses, settings[6].1) || Fatal(parses, settings[7].1);
    }
  }

  lemma SettingRuns(jobs: map<string, Job>, settings: seq<(string, string)>, k: nat)
    requires DistinctSettings(settings) && HasWantedJobs(jobs, settings) && k < |settings|
    ensures Runs(jobs, settings[k].0, settings[k].1)
  {
  }

  lemma WantedIsConfigured(jobs: map<string, Job>, cfg: Config)
    requires HasWantedJobs(jobs, cfg.Settings())
    ensures RunsConfigured(jobs, cfg)
  {
    hide HasWantedJobs, Runs;
    var settings := cfg.Settings();
    forall k: nat | k < 8 ensures Runs(jobs, settings[k].0, settings[k].1) {
      SettingRuns(jobs, settings, k);
    }
    assert Runs(jobs, settings[0].0, settings[0].1) && Runs(jobs, settings[1].0, settings[1].1);
    assert Runs(jobs, settings[2].0, settings[2].1) && Runs(jobs, settings[3].0, settings[3].1);
    assert Runs(jobs, settings[4].0, settings[4].1) && Runs(jobs, settings[5].0, settings[5].1);
    assert Runs(jobs, settings[6].0, settings[6].1) && Runs(jobs, settings[7].0, settings[7].1);
    forall n | n in jobs ensures exists k :: 0 <= k < |settings| && settings[k].0 == n {
      WantedHasName(jobs, settings, n);
    }
  }

  lemma WantedHasName(jobs: map<string, Job>, settings: seq<(string, string)>, n: string)
    requires HasWantedJobs(jobs, settings) && n in jobs
    ensures exists k :: 0 <= k < |settings| && settings[k].0 == n
  {
  }

  /**
   * InitScheduler: null where the source exits with a fatal error. That happens exactly if some wanted
   * interval is not a schedule; otherwise exactly the wanted jobs are scheduled.
   */
  method InitScheduler(parses: string -> bool, cfg: Config) returns (s: Scheduler?)
    ensures s == null <==> SomeInvalid(parses, cfg.Settings())
    ensures s == null <==> SomeFatal(parses, cfg)
    ensures s != null ==> fresh(s) && fresh(s.c) && Inv(s.View()) && HasWantedJobs(s.jobs, cfg.Settings())
    ensures s != null ==> RunsConfigured(s.jobs, cfg)
  {
    hide HasWantedJobs, SomeInvalid, Inv, Started, SomeFatal, RunsConfigured;
    InvalidIsFatal(parses, cfg);
    ghost var settings := cfg.Settings();
    var t := new Scheduler(parses);
    NothingStarted(parses, settings);
    var ok := t.Schedule("Outdated", cfg.outdated, settings, 0);
    if !ok { return null; }
    ok := t.Schedule("GetALL", cfg.getAll, settings, 1);
    if !ok { return null; }
    ok := t.Schedule("KubeScore", cfg.kubeScore, settings, 2);
    if !ok { return null; }
    ok := t.Schedule("Rakkess", cfg.rakkess, settings, 3);
    if !ok { return null; }
    ok := t.Schedule("KubePreUpgrade", cfg.kubePreUpgrade, settings, 4);
    if !ok { return null; }
    ok := t.Schedule("Trivyimage", cfg.trivyImage, settings, 5);
    if !ok { return null; }
    ok := t.Schedule("Trivysbom", cfg.trivySbom, settings, 6);
    if !ok { return null; }
    ok := t.Schedule("Trivycluster", cfg.trivyClusterScan, settings, 7);
    if !ok { return null; }
    assert settings[..8] == settings;
    AllStarted(parses, t.View(), settings);
    WantedIsConfigured(t.jobs, cfg);
    return t;
  }

  lemma AllStarted(parses: string -> bool, s: State, settings: seq<(string, string)>)
    requires Started(parses, s, settings)
    ensures Inv(s) && HasWantedJobs(s.jobs, settings) && !SomeInvalid(parses, settings)
  {
  }

  lemma NothingStarted(parses: string -> bool, settings: seq<(string, string)>)
    ensures Started(parses, EMPTY, settings[..0])
  {
  }
}
