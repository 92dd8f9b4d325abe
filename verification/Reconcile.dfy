/** The reconciler of the per-target bridge processes: pid and hash files, running processes,
    and one pass that brings them in line with the manifest. */
module Reconcile {
  import opened Results
  import opened Sequences

  type Id = string
  type Pid = nat

  datatype Secret = Secret(username: string, password: string)

  /** One entry of a manifest. Ingress targets connect to a URL, egress targets listen on a
      port; `settings` stands for the other configured fields. */
  datatype Target = Target(id: Id, enabled: bool, endpoint: string, settings: seq<string>)

  /** The digest of a target's configuration and secret, free of collisions. */
  datatype Hash = Hash(endpoint: string, settings: seq<string>, secret: Option<Secret>)

  function ConfigHash(t: Target, secret: Option<Secret>): Hash {
    Hash(t.endpoint, t.settings, secret)
  }

  /** A process with the bridge script on its command line, or any other. */
  datatype Process = Bridge(id: Id, config: Hash) | Foreign

  /** What decides whether a process can be spawned, fixed for one pass: the deployment's
      own settings, and the targets whose spawn the system refuses. */
  datatype Host = Host(settingsOk: bool, refused: set<Id>)

  predicate CanStart(host: Host, t: Target) {
    t.endpoint != "" && host.settingsOk && t.id !in host.refused
  }

  datatype Files = Files(pids: map<Id, Pid>, hashes: map<Id, Hash>)

  datatype State = State(files: Files, processes: map<Pid, Process>)

  /** The pid that a target's file names, if a bridge process has it. */
  function RunningPid(s: State, id: Id): Option<Pid> {
    if id in s.files.pids && s.files.pids[id] in s.processes && s.processes[s.files.pids[id]].Bridge?
    then Some(s.files.pids[id]) else None
  }

  predicate Running(s: State, id: Id) {
    RunningPid(s, id).Some?
  }

  predicate RunsAs(s: State, id: Id, config: Hash) {
    Running(s, id) && s.processes[RunningPid(s, id).value] == Bridge(id, config)
  }

  /** Every bridge process has its pid file, and no target's file names the process of
      another target. */
  predicate Tracked(s: State) {
    && (forall pid | pid in s.processes && s.processes[pid].Bridge? ::
          var id := s.processes[pid].id; id in s.files.pids && s.files.pids[id] == pid)
    && (forall id | id in s.files.pids && Running(s, id) :: OwnProcess(s, id))
  }

  predicate OwnProcess(s: State, id: Id)
    requires Running(s, id)
  {
    s.processes[RunningPid(s, id).value].id == id
  }

  /** A hash file tells the configuration of the process that runs beside it. */
  predicate TrueHashes(s: State) {
    forall id | id in s.files.hashes && Running(s, id) :: s.processes[RunningPid(s, id).value].config == s.files.hashes[id]
  }

  type Manifest = seq<Target>

  predicate DistinctIds(m: Manifest) {
    forall i, j | 0 <= i < j < |m| :: m[i].id != m[j].id
  }

  function SecretOf(secrets: map<Id, Secret>, id: Id): Option<Secret> {
    if id in secrets then Some(secrets[id]) else None
  }

  function Desired(t: Target, secrets: map<Id, Secret>): Hash {
    ConfigHash(t, SecretOf(secrets, t.id))
  }

  /** Running with the desired configuration, as far as the files tell. */
  predicate UpToDate(s: State, t: Target, secrets: map<Id, Secret>) {
    Running(s, t.id) && t.id in s.files.hashes && s.files.hashes[t.id] == Desired(t, secrets)
  }

  function WithoutFiles(files: Files, id: Id): Files {
    Files(files.pids - {id}, files.hashes - {id})
  }

  /** The target's process ended, and its files removed. */
  function Stopped(s: State, id: Id): State {
    State(WithoutFiles(s.files, id),
          if Running(s, id) then s.processes - {RunningPid(s, id).value} else s.processes)
  }

  function Started(s: State, id: Id, config: Hash, pid: Pid): State {
    State(Files(s.files.pids[id := pid], s.files.hashes[id := config]), s.processes[pid := Bridge(id, config)])
  }

  /** No other target's pid file names the pid. */
  predicate Fresh(s: State, id: Id, pid: Pid) {
    forall other | other in s.files.pids && other != id :: s.files.pids[other] != pid
  }

  // ----- one target at a time -----

  lemma StoppedFacts(s: State, id: Id)
    requires Tracked(s)
    ensures Tracked(Stopped(s, id)) && !Running(Stopped(s, id), id)
    ensures forall other | other != id :: Same(s, Stopped(s, id), other)
  {}

  lemma StartedFacts(s: State, id: Id, config: Hash, pid: Pid)
    requires Tracked(s) && !Running(s, id) && pid !in s.processes && Fresh(s, id, pid)
    ensures var after := Started(s, id, config, pid);
            && Tracked(after) && RunsAs(after, id, config)
            && id in after.files.hashes && after.files.hashes[id] == config
    ensures forall other | other != id :: Same(s, Started(s, id, config, pid), other)
  {}

  /** Starting a process keeps the files telling one target from another exactly when no
      other target's pid file names its pid already. */
  lemma StartedTrackedExactly(s: State, id: Id, config: Hash, pid: Pid)
    requires Tracked(s) && !Running(s, id) && pid !in s.processes
    ensures Tracked(Started(s, id, config, pid)) <==> Fresh(s, id, pid)
  {
    var after := Started(s, id, config, pid);
    if Tracked(after) {
      forall other | other in s.files.pids && other != id
        ensures s.files.pids[other] != pid
      {
        assert Running(after, other) ==> OwnProcess(after, other);
      }
    } else if Fresh(s, id, pid) {
      forall p | p in after.processes && after.processes[p].Bridge?
        ensures var owner := after.processes[p].id; owner in after.files.pids && after.files.pids[owner] == p
      {
        assert p != pid ==> p in s.processes;
      }
      assert false;
    }
  }

  /** A target is left alone: its files, and whether and how it runs. */
  predicate Same(before: State, after: State, id: Id) {
    && (id in before.files.pids <==> id in after.files.pids)
    && (id in before.files.pids ==> before.files.pids[id] == after.files.pids[id])
    && (id in before.files.hashes <==> id in after.files.hashes)
    && (id in before.files.hashes ==> before.files.hashes[id] == after.files.hashes[id])
    && RunningPid(before, id) == RunningPid(after, id)
    && (Running(before, id) ==> before.processes[RunningPid(before, id).value] == after.processes[RunningPid(before, id).value])
  }

  lemma SameTransitive(a: State, b: State, c: State, id: Id)
    requires Same(a, b, id) && Same(b, c, id)
    ensures Same(a, c, id)
  {}

  // ----- one pass -----

  predicate Wanted(m: Manifest, id: Id) {
    exists t | t in m :: t.id == id && t.enabled
  }

  datatype Outcome = Keep | Launch | Block

  /** What a pass does about an enabled target. */
  function OutcomeOf(s: State, t: Target, secrets: map<Id, Secret>, host: Host): Outcome {
    if UpToDate(s, t, secrets) then Keep else if CanStart(host, t) then Launch else Block
  }

  /** The enabled targets with an outcome, in the order of the manifest. */
  function WithOutcome(s: State, m: Manifest, secrets: map<Id, Secret>, host: Host, o: Outcome): seq<Id> {
    if m == [] then []
    else
      var t := m[|m| - 1];
      WithOutcome(s, m[..|m| - 1], secrets, host, o) + if t.enabled && OutcomeOf(s, t, secrets, host) == o then [t.id] else []
  }

  /** How a target stands after a pass. */
  predicate Settled(before: State, after: State, t: Target, secrets: map<Id, Secret>, host: Host) {
    match OutcomeOf(before, t, secrets, host)
    case Keep => Same(before, after, t.id)
    case Launch => RunsAs(after, t.id, Desired(t, secrets)) && UpToDate(after, t, secrets)
    case Block => !Running(after, t.id)
  }

  datatype Report = Report(started: seq<Id>, stopped: set<Id>, kept: seq<Id>, blocked: seq<Id>)

  /** Everything that one pass promises. */
  ghost predicate PassResult(before: State, after: State, m: Manifest, secrets: map<Id, Secret>, host: Host, report: Report) {
    && Tracked(after)
    && (forall t | t in m && t.enabled :: Settled(before, after, t, secrets, host))
    && (forall id | !Wanted(m, id) :: !Running(after, id))
    && (forall id :: id in report.stopped <==> Running(before, id) && !Wanted(m, id))
    && report.started == WithOutcome(before, m, secrets, host, Launch)
    && report.kept == WithOutcome(before, m, secrets, host, Keep)
    && report.blocked == WithOutcome(before, m, secrets, host, Block)
  }

  // ----- the pass as a function -----

  /** Some targets stopped: their processes and files are gone. */
  function Without(s: State, ids: set<Id>): State {
    State(Files(s.files.pids - ids, s.files.hashes - ids),
          s.processes - (set id | id in ids && Running(s, id) :: s.files.pids[id]))
  }

  function Unwanted(s: State, m: Manifest): set<Id> {
    set id | id in s.files.pids && !Wanted(m, id)
  }

  function StoppedBy(s: State, m: Manifest): set<Id> {
    set id | id in Unwanted(s, m) && Running(s, id)
  }

  /** The target's state before it is started: stopped if it ran with another configuration. */
  function Halted(s: State, t: Target): State {
    if Running(s, t.id) then Stopped(s, t.id) else s
  }

  /** One enabled target dealt with; `spawn` is the pid that the system gives a new process. */
  function SettledState(s: State, t: Target, secrets: map<Id, Secret>, host: Host, spawn: State -> Pid): State {
    match OutcomeOf(s, t, secrets, host)
    case Keep => s
    case Launch => Started(Halted(s, t), t.id, Desired(t, secrets), spawn(Halted(s, t)))
    case Block => Halted(s, t)
  }

  function Passed(s: State, m: Manifest, secrets: map<Id, Secret>, host: Host, spawn: State -> Pid): State {
    if m == [] then s
    else
      var t, middle := m[|m| - 1], Passed(s, m[..|m| - 1], secrets, host, spawn);
      if t.enabled then SettledState(middle, t, secrets, host, spawn) else middle
  }

  /** The targets that met with an outcome on the way. */
  function Met(s: State, m: Manifest, secrets: map<Id, Secret>, host: Host, spawn: State -> Pid, o: Outcome): seq<Id> {
    if m == [] then []
    else
      var t, earlier := m[|m| - 1], m[..|m| - 1];
      Met(s, earlier, secrets, host, spawn, o)
      + if t.enabled && OutcomeOf(Passed(s, earlier, secrets, host, spawn), t, secrets, host) == o then [t.id] else []
  }

  /** A whole pass: what is not wanted is stopped first, then each enabled target is settled. */
  function Pass(s: State, m: Manifest, secrets: map<Id, Secret>, host: Host, spawn: State -> Pid): (State, Report) {
    var start := Without(s, Unwanted(s, m));
    (Passed(start, m, secrets, host, spawn),
     Report(Met(start, m, secrets, host, spawn, Launch), StoppedBy(s, m),
            Met(start, m, secrets, host, spawn, Keep), Met(start, m, secrets, host, spawn, Block)))
  }

  /** If the target is started, its new process gets a pid that no other target's file names. */
  predicate StartsFresh(s: State, t: Target, secrets: map<Id, Secret>, host: Host, spawn: State -> Pid) {
    OutcomeOf(s, t, secrets, host) == Launch ==> Fresh(Halted(s, t), t.id, spawn(Halted(s, t)))
  }

  /** Every start of a pass is one of those. */
  predicate AllFresh(s: State, m: Manifest, secrets: map<Id, Secret>, host: Host, spawn: State -> Pid) {
    var start := Without(s, Unwanted(s, m));
    forall i | 0 <= i < |m| && m[i].enabled :: StartsFresh(Passed(start, m[..i], secrets, host, spawn), m[i], secrets, host, spawn)
  }

  class Reconciler {
    var pids: map<Id, Pid>
    var hashes: map<Id, Hash>
    var processes: map<Pid, Process>

    constructor (s: State)
      ensures Snapshot() == s
    {
      pids, hashes, processes := s.files.pids, s.files.hashes, s.processes;
    }

    function Snapshot(): State
      reads this
    {
      State(Files(pids, hashes), processes)
    }

    /** `_sitaware_stop`: the process ends on SIGTERM. */
    method Stop(id: Id)
      modifies this
      ensures Snapshot() == Stopped(old(Snapshot()), id)
    {
      var pid := RunningPid(Snapshot(), id);
      if pid.Some? {
        processes := processes - {pid.value};
      }
      pids := pids - {id};
      hashes := hashes - {id};
    }

    /** `_sitaware_start`; `pid` is the one that the system would give the process. */
    method Start(t: Target, secret: Option<Secret>, host: Host, pid: Pid) returns (ok: bool)
      modifies this
      ensures ok == CanStart(host, t)
      ensures Snapshot() == if ok then Started(old(Snapshot()), t.id, ConfigHash(t, secret), pid) else old(Snapshot())
    {
      if t.endpoint == "" {
        return false;
      }
      if !host.settingsOk {
        return false;
      }
      if t.id in host.refused {
        return false;
      }
      processes := processes[pid := Bridge(t.id, ConfigHash(t, secret))];
      pids := pids[t.id := pid];
      hashes := hashes[t.id := ConfigHash(t, secret)];
      return true;
    }

    /** The first half of a pass: processes and files of targets that are gone or disabled. */
    method StopUnwanted(m: Manifest) returns (stopped: set<Id>)
      requires Tracked(Snapshot())
      modifies this
      ensures Snapshot() == Without(old(Snapshot()), Unwanted(old(Snapshot()), m))
      ensures stopped == StoppedBy(old(Snapshot()), m)
    {
      hide Tracked, Same, Wanted, Stopped, RunningPid, Without;
      ghost var before := Snapshot();
      stopped := {};
      var known := pids.Keys;
      ghost var done: set<Id> := {};
      WithoutNone(before);
      assert (set id | id in done && !Wanted(m, id)) == {};
      while known != {}
        invariant done !! known && done + known == before.files.pids.Keys
        invariant Snapshot() == Without(before, set id | id in done && !Wanted(m, id))
        invariant stopped == set id | id in done && !Wanted(m, id) && Running(before, id)
        decreases |known|
      {
        var id :| id in known;
        MoveElement(done, known, before.files.pids.Keys, id);
        ghost var gone := set x | x in done && !Wanted(m, x);
        ghost var more := set x | x in done + {id} && !Wanted(m, x);
        known, done := known - {id}, done + {id};
        if Wanted(m, id) {
          assert more == gone;
        } else {
          WithoutFacts(before, gone);
          SameRunning(before, Snapshot(), id);
          WithoutOneMore(before, gone, id);
          assert more == gone + {id};
          if Running(Snapshot(), id) {
            stopped := stopped + {id};
          }
          Stop(id);
        }
      }
      assert (set id | id in done && !Wanted(m, id)) == Unwanted(before, m);
    }

    /** The loop body of the second half: one enabled target. */
    method Settle(t: Target, secrets: map<Id, Secret>, host: Host, spawn: State -> Pid) returns (outcome: Outcome)
      modifies this
      ensures outcome == OutcomeOf(old(Snapshot()), t, secrets, host)
      ensures Snapshot() == SettledState(old(Snapshot()), t, secrets, host, spawn)
    {
      var secret := SecretOf(secrets, t.id);
      var desired := ConfigHash(t, secret);
      var pid := RunningPid(Snapshot(), t.id);
      if pid.Some? && t.id in hashes && hashes[t.id] == desired {
        return Keep;
      }
      hide Stopped, Started, RunningPid, CanStart;
      if pid.Some? {
        Stop(t.id);
      }
      var newPid := spawn(Snapshot());
      var ok := Start(t, secret, host, newPid);
      return if ok then Launch else Block;
    }

    /** `_reconcile_sitaware_targets` and its egress twin: a pass keeps all its promises exactly
        when no process that it starts gets a pid that another target's file names. */
    method Reconcile(m: Manifest, secrets: map<Id, Secret>, host: Host, spawn: State -> Pid) returns (report: Report)
      requires Tracked(Snapshot()) && DistinctIds(m) && forall s :: spawn(s) !in s.processes
      modifies this
      ensures (Snapshot(), report) == Pass(old(Snapshot()), m, secrets, host, spawn)
      ensures PassResult(old(Snapshot()), Snapshot(), m, secrets, host, report)
              <==> AllFresh(old(Snapshot()), m, secrets, host, spawn)
    {
      hide Tracked, OutcomeOf, SettledState, Without, Unwanted, PassResult, AllFresh;
      ghost var before := Snapshot();
      var stopped := StopUnwanted(m);
      ghost var start := Snapshot();
      var started, kept, blocked: seq<Id> := [], [], [];
      for i := 0 to |m|
        invariant Snapshot() == Passed(start, m[..i], secrets, host, spawn)
        invariant started == Met(start, m[..i], secrets, host, spawn, Launch)
        invariant kept == Met(start, m[..i], secrets, host, spawn, Keep)
        invariant blocked == Met(start, m[..i], secrets, host, spawn, Block)
      {
        var t := m[i];
        assert m[..i + 1][..i] == m[..i];
        if t.enabled {
          var outcome := Settle(t, secrets, host, spawn);
          match outcome
          case Keep => kept := kept + [t.id];
          case Launch => started := started + [t.id];
          case Block => blocked := blocked + [t.id];
        }
      }
      assert m[..|m|] == m;
      PassSettlesExactly(before, m, secrets, host, spawn);
      return Report(started, stopped, kept, blocked);
    }
  }

  // ----- the first half -----

  lemma WithoutNone(s: State)
    ensures Without(s, {}) == s
  {
    assert s.files.pids - {} == s.files.pids && s.files.hashes - {} == s.files.hashes && s.processes - {} == s.processes;
  }

  lemma WithoutOneMore(s: State, ids: set<Id>, id: Id)
    ensures Stopped(Without(s, ids), id) == Without(s, ids + {id})
  {
    var a, b := Stopped(Without(s, ids), id), Without(s, ids + {id});
    assert a.files.pids == b.files.pids && a.files.hashes == b.files.hashes;
    assert a.processes.Keys == b.processes.Keys;
    assert a.processes == b.processes;
  }

  lemma WithoutFacts(s: State, ids: set<Id>)
    requires Tracked(s)
    ensures Tracked(Without(s, ids))
    ensures forall id | id in ids :: !Running(Without(s, ids), id)
    ensures forall id | id !in ids :: Same(s, Without(s, ids), id)
  {
    var t := Without(s, ids);
    forall id | id !in ids
      ensures Same(s, t, id)
    {
      if Running(s, id) {
        assert OwnProcess(s, id);
        forall other | other in ids && Running(s, other)
          ensures s.files.pids[other] != s.files.pids[id]
        {
          assert OwnProcess(s, other);
        }
      }
    }
    forall pid | pid in t.processes && t.processes[pid].Bridge?
      ensures t.processes[pid].id in t.files.pids && t.files.pids[t.processes[pid].id] == pid
    {
      assert s.processes[pid].Bridge?;
      var id := s.processes[pid].id;
      assert s.files.pids[id] == pid && Running(s, id);
    }
    forall id | id in t.files.pids && Running(t, id)
      ensures OwnProcess(t, id)
    {
      assert Same(s, t, id) && Running(s, id) && OwnProcess(s, id);
    }
  }

  lemma StartOfPass(s: State, m: Manifest)
    requires Tracked(s)
    ensures Tracked(Without(s, Unwanted(s, m)))
    ensures forall id :: if Wanted(m, id) then Same(s, Without(s, Unwanted(s, m)), id) else !Running(Without(s, Unwanted(s, m)), id)
    ensures forall id | Running(s, id) && !Wanted(m, id) :: id in Unwanted(s, m)
  {
    WithoutFacts(s, Unwanted(s, m));
    hide Tracked, Wanted, Same, Without, RunningPid;
    var t := Without(s, Unwanted(s, m));
    forall id | !Wanted(m, id)
      ensures !Running(t, id) && (Running(s, id) ==> id in Unwanted(s, m))
    {
      NotRunningWithoutFile(s, t, id);
    }
  }

  // ----- the second half -----

  lemma SettledStateFacts(s: State, t: Target, secrets: map<Id, Secret>, host: Host, spawn: State -> Pid)
    requires Tracked(s) && StartsFresh(s, t, secrets, host, spawn) && forall x :: spawn(x) !in x.processes
    ensures var after := SettledState(s, t, secrets, host, spawn);
            && Tracked(after) && Settled(s, after, t, secrets, host)
            && forall id | id != t.id :: Same(s, after, id)
  {
    hide Tracked, Same, Stopped, Started, RunningPid, Fresh, CanStart;
    var after := SettledState(s, t, secrets, host, spawn);
    forall id
      ensures Same(s, s, id)
    {
      SameReflexive(s, id);
    }
    if !UpToDate(s, t, secrets) {
      StoppedFacts(s, t.id);
      var h := Halted(s, t);
      if CanStart(host, t) {
        StartedFacts(h, t.id, Desired(t, secrets), spawn(h));
        forall id | id != t.id
          ensures Same(s, after, id)
        {
          SameTransitive(s, h, after, id);
        }
      }
    }
  }

  /** The targets before the i-th are settled, and the rest are as they were. */
  ghost predicate Underway(before: State, now: State, m: Manifest, secrets: map<Id, Secret>, host: Host, i: nat) {
    && i <= |m| && Tracked(now)
    && (forall j | 0 <= j < i && m[j].enabled :: Settled(before, now, m[j], secrets, host))
    && (forall j | i <= j < |m| && m[j].enabled :: Same(before, now, m[j].id))
    && (forall id | !Wanted(m, id) :: !Running(now, id))
  }

  lemma UnderwayStep(before: State, middle: State, m: Manifest, secrets: map<Id, Secret>, host: Host, spawn: State -> Pid, i: nat)
    requires i < |m| && DistinctIds(m) && Underway(before, middle, m, secrets, host, i)
    requires forall x :: spawn(x) !in x.processes
    requires m[i].enabled ==> StartsFresh(middle, m[i], secrets, host, spawn)
    ensures Underway(before, if m[i].enabled then SettledState(middle, m[i], secrets, host, spawn) else middle, m, secrets, host, i + 1)
    ensures m[i].enabled ==> OutcomeOf(before, m[i], secrets, host) == OutcomeOf(middle, m[i], secrets, host)
  {
    hide Same, Settled, Tracked, OutcomeOf, SettledState, StartsFresh, Running, Wanted;
    if m[i].enabled {
      var after := SettledState(middle, m[i], secrets, host, spawn);
      SettledStateFacts(middle, m[i], secrets, host, spawn);
      OutcomeIsLocal(before, middle, m[i], secrets, host);
      UnwantedSettle(before, middle, after, m, i, secrets, host);
      SettleStep(before, middle, after, m, i, secrets, host);
    }
  }

  // ----- a start that is not fresh -----

  /** A target whose pid file does not tell its process from another's. */
  predicate Confused(s: State, id: Id) {
    && id in s.files.pids
    && var pid := s.files.pids[id];
       || pid !in s.processes || s.processes[pid].Foreign? || s.processes[pid].id != id
       || exists other | other in s.files.pids :: other != id && s.files.pids[other] == pid
  }

  lemma StaleStartConfuses(s: State, t: Target, secrets: map<Id, Secret>, host: Host, spawn: State -> Pid)
    requires !StartsFresh(s, t, secrets, host, spawn)
    ensures Confused(SettledState(s, t, secrets, host, spawn), t.id) && OutcomeOf(s, t, secrets, host) == Launch
  {
    var h := Halted(s, t);
    var other :| other in h.files.pids && other != t.id && h.files.pids[other] == spawn(h);
    var after := SettledState(s, t, secrets, host, spawn);
    assert other in after.files.pids && after.files.pids[other] == spawn(h);
  }

  /** Dealing with other targets does not help: the process is lost, or shared. */
  lemma ConfusionStays(s: State, t: Target, secrets: map<Id, Secret>, host: Host, spawn: State -> Pid, id: Id)
    requires Confused(s, id) && id != t.id
    ensures Confused(SettledState(s, t, secrets, host, spawn), id)
  {
    hide CanStart, UpToDate;
    var after := SettledState(s, t, secrets, host, spawn);
    var pid := s.files.pids[id];
    assert id in after.files.pids && after.files.pids[id] == pid;
    if pid in s.processes && s.processes[pid].Bridge? && s.processes[pid].id == id {
      var other :| other in s.files.pids && other != id && s.files.pids[other] == pid;
      if other != t.id {
        assert other in after.files.pids && after.files.pids[other] == pid;
      } else {
        assert Running(s, t.id);
      }
    }
  }

  lemma ConfusedIsNotSettled(before: State, after: State, t: Target, secrets: map<Id, Secret>, host: Host)
    requires Confused(after, t.id) && OutcomeOf(before, t, secrets, host) == Launch
    ensures !(Tracked(after) && Settled(before, after, t, secrets, host))
  {
    if RunsAs(after, t.id, Desired(t, secrets)) {
      var other :| other in after.files.pids && other != t.id && after.files.pids[other] == after.files.pids[t.id];
      assert Running(after, other) && !OwnProcess(after, other);
    }
  }

  predicate FreshUpTo(start: State, m: Manifest, secrets: map<Id, Secret>, host: Host, spawn: State -> Pid, i: nat)
    requires i <= |m|
  {
    forall j | 0 <= j < i && m[j].enabled :: StartsFresh(Passed(start, m[..j], secrets, host, spawn), m[j], secrets, host, spawn)
  }

  ghost predicate SomeConfused(before: State, now: State, m: Manifest, secrets: map<Id, Secret>, host: Host, i: nat)
    requires i <= |m|
  {
    exists j | 0 <= j < i :: m[j].enabled && Confused(now, m[j].id) && OutcomeOf(before, m[j], secrets, host) == Launch
  }

  /** After each target of a pass: all is well while every start was fresh, and some target
      that was to be started is confused as soon as one was not. */
  lemma {:induction false} PassedSoFar(before: State, start: State, m: Manifest, secrets: map<Id, Secret>, host: Host, spawn: State -> Pid, i: nat)
    requires i <= |m| && DistinctIds(m) && Underway(before, start, m, secrets, host, 0)
    requires forall x :: spawn(x) !in x.processes
    ensures var now := Passed(start, m[..i], secrets, host, spawn);
            if FreshUpTo(start, m, secrets, host, spawn, i) then Underway(before, now, m, secrets, host, i)
            else SomeConfused(before, now, m, secrets, host, i)
  {
    hide Underway, StartsFresh, SettledState, OutcomeOf, Confused;
    if i > 0 {
      var n := i - 1;
      PassedSoFar(before, start, m, secrets, host, spawn, n);
      assert m[..i][..n] == m[..n];
      var middle := Passed(start, m[..n], secrets, host, spawn);
      if !FreshUpTo(start, m, secrets, host, spawn, n) {
        var j :| 0 <= j < n && m[j].enabled && Confused(middle, m[j].id) && OutcomeOf(before, m[j], secrets, host) == Launch;
        if m[n].enabled {
          ConfusionStays(middle, m[n], secrets, host, spawn, m[j].id);
        }
      } else if m[n].enabled && !StartsFresh(middle, m[n], secrets, host, spawn) {
        StaleStartConfuses(middle, m[n], secrets, host, spawn);
        OutcomeSoFar(before, middle, m, secrets, host, n);
        assert !FreshUpTo(start, m, secrets, host, spawn, i);
      } else {
        UnderwayStep(before, middle, m, secrets, host, spawn, n);
        assert FreshUpTo(start, m, secrets, host, spawn, i);
      }
    } else {
      assert m[..0] == [];
    }
  }

  lemma OutcomeSoFar(before: State, middle: State, m: Manifest, secrets: map<Id, Secret>, host: Host, i: nat)
    requires i < |m| && m[i].enabled && Underway(before, middle, m, secrets, host, i)
    ensures OutcomeOf(before, m[i], secrets, host) == OutcomeOf(middle, m[i], secrets, host)
  {
    OutcomeIsLocal(before, middle, m[i], secrets, host);
  }

  lemma {:induction false} MetIsPlanned(before: State, start: State, m: Manifest, secrets: map<Id, Secret>, host: Host, spawn: State -> Pid,
                                        o: Outcome, i: nat)
    requires i <= |m| && DistinctIds(m) && Underway(before, start, m, secrets, host, 0)
    requires FreshUpTo(start, m, secrets, host, spawn, i) && forall x :: spawn(x) !in x.processes
    ensures Met(start, m[..i], secrets, host, spawn, o) == WithOutcome(before, m[..i], secrets, host, o)
  {
    hide Underway, StartsFresh, OutcomeOf, Passed;
    if i > 0 {
      var n := i - 1;
      MetIsPlanned(before, start, m, secrets, host, spawn, o, n);
      assert m[..i][..n] == m[..n];
      if m[n].enabled {
        PassedSoFar(before, start, m, secrets, host, spawn, n);
        OutcomeSoFar(before, Passed(start, m[..n], secrets, host, spawn), m, secrets, host, n);
      }
    } else {
      assert m[..0] == [];
    }
  }

  /** A pass keeps all its promises if and only if no process that it starts gets a pid that
      another target's file names at that moment. */
  lemma PassSettlesExactly(s: State, m: Manifest, secrets: map<Id, Secret>, host: Host, spawn: State -> Pid)
    requires Tracked(s) && DistinctIds(m) && forall x :: spawn(x) !in x.processes
    ensures var (after, report) := Pass(s, m, secrets, host, spawn);
            PassResult(s, after, m, secrets, host, report) <==> AllFresh(s, m, secrets, host, spawn)
  {
    StartOfPass(s, m);
    var start := Without(s, Unwanted(s, m));
    StartIsUnderway(s, start, m, secrets, host);
    var n := |m|;
    assert m[..n] == m;
    PassedSoFar(s, start, m, secrets, host, spawn, n);
    hide Tracked, Same, Settled, StartsFresh, OutcomeOf, Confused, Wanted, Passed, Without, Unwanted, Running;
    assert AllFresh(s, m, secrets, host, spawn) <==> FreshUpTo(start, m, secrets, host, spawn, n);
    var after := Passed(start, m, secrets, host, spawn);
    if AllFresh(s, m, secrets, host, spawn) {
      MetIsPlanned(s, start, m, secrets, host, spawn, Launch, n);
      MetIsPlanned(s, start, m, secrets, host, spawn, Keep, n);
      MetIsPlanned(s, start, m, secrets, host, spawn, Block, n);
      forall t | t in m && t.enabled
        ensures Settled(s, after, t, secrets, host)
      {
        var j :| 0 <= j < |m| && m[j] == t;
      }
      UnwantedAreStopped(s, m);
    } else {
      var j :| 0 <= j < n && m[j].enabled && Confused(after, m[j].id) && OutcomeOf(s, m[j], secrets, host) == Launch;
      ConfusedIsNotSettled(s, after, m[j], secrets, host);
      assert m[j] in m;
    }
  }

  lemma StartIsUnderway(s: State, start: State, m: Manifest, secrets: map<Id, Secret>, host: Host)
    requires Tracked(start)
    requires forall id :: if Wanted(m, id) then Same(s, start, id) else !Running(start, id)
    ensures Underway(s, start, m, secrets, host, 0)
  {
    hide Same, Tracked, Running;
    forall j | 0 <= j < |m| && m[j].enabled
      ensures Same(s, start, m[j].id)
    {
      assert m[j] in m && Wanted(m, m[j].id);
    }
  }

  lemma UnwantedAreStopped(s: State, m: Manifest)
    ensures forall id :: id in StoppedBy(s, m) <==> Running(s, id) && !Wanted(m, id)
  {
    hide Wanted;
  }

  lemma UnwantedSettle(before: State, middle: State, after: State, m: Manifest, i: nat, secrets: map<Id, Secret>, host: Host)
    requires i < |m| && m[i].enabled && DistinctIds(m)
    requires forall id | !Wanted(m, id) :: !Running(middle, id)
    requires forall id | id != m[i].id :: Same(middle, after, id)
    ensures forall id | !Wanted(m, id) :: !Running(after, id)
  {
    assert m[i] in m;
    forall id | !Wanted(m, id)
      ensures !Running(after, id)
    {
      SameRunning(middle, after, id);
    }
  }

  lemma SettleStep(before: State, middle: State, after: State, m: Manifest, i: nat, secrets: map<Id, Secret>, host: Host)
    requires i < |m| && m[i].enabled && DistinctIds(m)
    requires forall j | 0 <= j < i && m[j].enabled :: Settled(before, middle, m[j], secrets, host)
    requires forall j | i <= j < |m| && m[j].enabled :: Same(before, middle, m[j].id)
    requires forall id | id != m[i].id :: Same(middle, after, id)
    requires Settled(middle, after, m[i], secrets, host)
    ensures forall j | 0 <= j < i + 1 && m[j].enabled :: Settled(before, after, m[j], secrets, host)
    ensures forall j | i + 1 <= j < |m| && m[j].enabled :: Same(before, after, m[j].id)
  {
    hide Same, Settled;
    forall j | 0 <= j < i + 1 && m[j].enabled
      ensures Settled(before, after, m[j], secrets, host)
    {
      if j == i {
        SettledFrom(before, middle, after, m[i], secrets, host);
      } else {
        SettledStays(before, middle, after, m[j], secrets, host);
      }
    }
    forall j | i + 1 <= j < |m| && m[j].enabled
      ensures Same(before, after, m[j].id)
    {
      SameTransitive(before, middle, after, m[j].id);
    }
  }

  lemma SettledFrom(before: State, middle: State, after: State, t: Target, secrets: map<Id, Secret>, host: Host)
    requires Same(before, middle, t.id) && Settled(middle, after, t, secrets, host)
    ensures Settled(before, after, t, secrets, host)
  {}

  /** Targets that were settled stay so while other targets are dealt with. */
  lemma SettledStays(before: State, middle: State, after: State, t: Target, secrets: map<Id, Secret>, host: Host)
    requires Settled(before, middle, t, secrets, host) && Same(middle, after, t.id)
    ensures Settled(before, after, t, secrets, host)
  {}

  /** The decision about a target depends on nothing but that target's own state. */
  lemma OutcomeIsLocal(before: State, middle: State, t: Target, secrets: map<Id, Secret>, host: Host)
    requires Same(before, middle, t.id)
    ensures OutcomeOf(before, t, secrets, host) == OutcomeOf(middle, t, secrets, host)
    ensures UpToDate(before, t, secrets) <==> UpToDate(middle, t, secrets)
  {}

  lemma SameReflexive(s: State, id: Id)
    ensures Same(s, s, id)
  {}

  lemma SameRunning(a: State, b: State, id: Id)
    ensures Same(a, b, id) ==> (Running(a, id) <==> Running(b, id))
  {}

  lemma NotRunningWithoutFile(before: State, after: State, id: Id)
    ensures Running(before, id) ==> id in before.files.pids
    ensures id !in before.files.pids && Same(before, after, id) ==> !Running(after, id)
  {}

  // ----- what a pass achieves -----

  /** A target that runs as an earlier manifest wanted it is left alone exactly when neither its
      endpoint nor its settings nor its secret has changed; a changed one is started again where
      it can be, and one that cannot is stopped. */
  lemma KeptExactly(s: State, was: Target, wasSecrets: map<Id, Secret>, t: Target, secrets: map<Id, Secret>, host: Host)
    requires was.id == t.id && UpToDate(s, was, wasSecrets)
    ensures OutcomeOf(s, t, secrets, host) == Keep <==>
            && t.endpoint == was.endpoint && t.settings == was.settings
            && (t.id in secrets <==> t.id in wasSecrets) && (t.id in secrets ==> secrets[t.id] == wasSecrets[t.id])
    ensures OutcomeOf(s, t, secrets, host) == Launch ==> t.endpoint != "" && host.settingsOk && t.id !in host.refused
    ensures OutcomeOf(s, t, secrets, host) == Block ==> t.endpoint == "" || !host.settingsOk || t.id in host.refused
  {}

  lemma {:induction false} WithOutcomeMembers(s: State, m: Manifest, secrets: map<Id, Secret>, host: Host, o: Outcome, id: Id)
    ensures id in WithOutcome(s, m, secrets, host, o) <==> exists t | t in m :: t.id == id && t.enabled && OutcomeOf(s, t, secrets, host) == o
  {
    hide OutcomeOf;
    if m != [] {
      var n := |m| - 1;
      WithOutcomeMembers(s, m[..n], secrets, host, o, id);
      assert m == m[..n] + [m[n]];
    }
  }

  /** After a pass exactly the enabled targets run that can be started or already ran as
      desired, each with the hash of its desired configuration on file. */
  lemma PassConverges(before: State, after: State, m: Manifest, secrets: map<Id, Secret>, host: Host, report: Report, id: Id)
    requires Tracked(before) && PassResult(before, after, m, secrets, host, report)
    ensures Running(after, id) <==> exists t | t in m :: t.id == id && t.enabled && (UpToDate(before, t, secrets) || CanStart(host, t))
    ensures forall t | t in m && t.enabled && Running(after, t.id) :: UpToDate(after, t, secrets)
  {}

  /** The files tell the truth after a pass if they did before it, and then every target
      that runs does so with its desired configuration. */
  lemma PassKeepsTrueHashes(before: State, after: State, m: Manifest, secrets: map<Id, Secret>, host: Host, report: Report)
    requires TrueHashes(before) && PassResult(before, after, m, secrets, host, report)
    ensures TrueHashes(after)
    ensures forall t | t in m && t.enabled && Running(after, t.id) :: RunsAs(after, t.id, Desired(t, secrets))
  {
    forall t | t in m && t.enabled && Running(after, t.id)
      ensures RunsAs(after, t.id, Desired(t, secrets)) && UpToDate(after, t, secrets)
    {
      assert Settled(before, after, t, secrets, host);
      SettledTruth(before, after, t, secrets, host);
    }
    forall id | id in after.files.hashes && Running(after, id)
      ensures after.processes[RunningPid(after, id).value].config == after.files.hashes[id]
    {
      assert Wanted(m, id);
      var t :| t in m && t.id == id && t.enabled;
      assert RunsAs(after, t.id, Desired(t, secrets));
    }
  }

  lemma SettledTruth(before: State, after: State, t: Target, secrets: map<Id, Secret>, host: Host)
    requires TrueHashes(before) && Tracked(after) && Settled(before, after, t, secrets, host) && Running(after, t.id)
    ensures RunsAs(after, t.id, Desired(t, secrets)) && UpToDate(after, t, secrets)
  {
    assert OwnProcess(after, t.id);
  }

  /** The three lists part the enabled targets. */
  lemma ReportParts(before: State, after: State, m: Manifest, secrets: map<Id, Secret>, host: Host, report: Report, id: Id)
    requires DistinctIds(m) && PassResult(before, after, m, secrets, host, report)
    ensures Wanted(m, id) <==> id in report.started + report.kept + report.blocked
    ensures !(id in report.started && id in report.kept)
    ensures !(id in report.started && id in report.blocked)
    ensures !(id in report.kept && id in report.blocked)
  {
    WithOutcomeMembers(before, m, secrets, host, Launch, id);
    WithOutcomeMembers(before, m, secrets, host, Keep, id);
    WithOutcomeMembers(before, m, secrets, host, Block, id);
    hide OutcomeOf;
    assert forall t, u | t in m && u in m && t.id == id && u.id == id :: t == u;
  }

  /** A second pass over the same manifest starts and stops nothing. */
  lemma SecondPassIsIdle(s: State, first: State, second: State, m: Manifest, secrets: map<Id, Secret>, host: Host, one: Report, two: Report, id: Id)
    requires Tracked(s)
    requires PassResult(s, first, m, secrets, host, one) && PassResult(first, second, m, secrets, host, two)
    ensures id !in two.started && id !in two.stopped
    ensures id in two.blocked <==> id in one.blocked
    ensures RunningPid(second, id) == RunningPid(first, id)
  {
    WithOutcomeMembers(first, m, secrets, host, Launch, id);
    WithOutcomeMembers(first, m, secrets, host, Block, id);
    WithOutcomeMembers(s, m, secrets, host, Block, id);
    forall t | t in m && t.enabled
      ensures OutcomeOf(first, t, secrets, host) == if OutcomeOf(s, t, secrets, host) == Block then Block else Keep
      ensures RunningPid(second, t.id) == RunningPid(first, t.id)
    {
      assert Settled(s, first, t, secrets, host) && Settled(first, second, t, secrets, host);
      SecondOutcome(s, first, second, t, secrets, host);
    }
    hide OutcomeOf, Settled;
    if !Wanted(m, id) {
      assert !Running(first, id) && !Running(second, id);
    }
  }

  lemma SecondOutcome(s: State, first: State, second: State, t: Target, secrets: map<Id, Secret>, host: Host)
    requires Settled(s, first, t, secrets, host) && Settled(first, second, t, secrets, host)
    ensures OutcomeOf(first, t, secrets, host) == if OutcomeOf(s, t, secrets, host) == Block then Block else Keep
    ensures RunningPid(second, t.id) == RunningPid(first, t.id)
  {}

  /** Why a new pid must not be one that an old pid file names: the stale file then passes
      for a running target, and a pass that finds its hash up to date leaves it so. */
  lemma ReusedPidHidesTarget(t: Target, other: Target, secrets: map<Id, Secret>, host: Host, pid: Pid)
    requires t.id != other.id
    ensures var s := State(Files(map[other.id := pid], map[other.id := Desired(other, secrets)]), map[]);
            var after := Started(s, t.id, Desired(t, secrets), pid);
            && Tracked(s) && !Running(s, other.id)
            && OutcomeOf(after, other, secrets, host) == Keep
            && forall p | p in after.processes :: after.processes[p] == Bridge(t.id, Desired(t, secrets))
  {}
}
