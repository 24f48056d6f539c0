/**
 * The launcher of launch.py: the active sessions (the JSON lock file, a dict
 * from the port written as a string to the project path, in insertion order)
 * and the choice of a port from a fixed pool of three. The socket probe
 * `is_port_in_use` is the set of ports found busy.
 */
module Launcher {
  import opened Wrappers
  import Decimal

  const PortPool: seq<nat> := [8765, 8766, 8767]

  /** One item of the sessions dict: `str(port)` and the project path. */
  datatype Session = Session(key: string, project: string)

  /** The sessions dict as its items in insertion order. */
  type Sessions = seq<Session>

  predicate DistinctKeys(s: Sessions) {
    forall i, j :: 0 <= i < j < |s| ==> s[i].key != s[j].key
  }

  /** Every key is a port number that `int()` accepts. */
  predicate NumericKeys(s: Sessions) {
    forall i :: 0 <= i < |s| ==> Decimal.Parse(s[i].key).Some?
  }

  predicate WellFormed(s: Sessions) { DistinctKeys(s) && NumericKeys(s) }

  /** `int(port)` of a session. */
  function PortOf(e: Session): (port: nat)
    requires Decimal.Parse(e.key).Some?
  {
    Decimal.Parse(e.key).value
  }

  predicate IsBusy(e: Session, busy: set<nat>) {
    Decimal.Parse(e.key).Some? && Decimal.Parse(e.key).value in busy
  }

  function Keys(s: Sessions): (keys: set<string>) {
    set i | 0 <= i < |s| :: s[i].key
  }

  /** `{int(p) for p in sessions.keys()}`. */
  function UsedPorts(s: Sessions): (ports: set<nat>)
    requires NumericKeys(s)
  {
    set i | 0 <= i < |s| :: PortOf(s[i])
  }

  // ---------------------------------------------------------------------------
  // cleanup_stale_sessions (lines 49-55)

  /** The sessions whose port is in use, in their order. */
  function Active(s: Sessions, busy: set<nat>): (r: Sessions)
    ensures |r| <= |s|
    ensures forall i :: 0 <= i < |r| ==> IsBusy(r[i], busy)
  {
    if s == [] then []
    else Active(s[..|s| - 1], busy) + (if IsBusy(s[|s| - 1], busy) then [s[|s| - 1]] else [])
  }

  /** Cleanup keeps exactly the entries whose port is in use, values unchanged. */
  lemma {:induction false} ActiveMembers(s: Sessions, busy: set<nat>, x: Session)
    ensures x in Active(s, busy) <==> x in s && IsBusy(x, busy)
  {
    if s != [] {
      var init := s[..|s| - 1];
      ActiveMembers(init, busy, x);
      assert s == init + [s[|s| - 1]];
    }
  }

  /** Cleanup keeps the keys distinct and numeric. */
  lemma {:induction false} ActiveWellFormed(s: Sessions, busy: set<nat>)
    requires WellFormed(s)
    ensures WellFormed(Active(s, busy))
  {
    if s != [] {
      var init := s[..|s| - 1];
      var last := s[|s| - 1];
      ActiveWellFormed(init, busy);
      if IsBusy(last, busy) {
        var a := Active(init, busy);
        forall i | 0 <= i < |a| ensures a[i].key != last.key {
          ActiveMembers(init, busy, a[i]);
          var j :| 0 <= j < |init| && init[j] == a[i];
          assert s[j] == a[i];
        }
        forall i | 0 <= i < |a| ensures Decimal.Parse(a[i].key).Some? {
          ActiveMembers(init, busy, a[i]);
        }
      }
    }
  }

  method CleanupStaleSessions(sessions: Sessions, busy: set<nat>) returns (active: Sessions)
    ensures active == Active(sessions, busy)
  {
    active := [];
    for n := 0 to |sessions|
      invariant active == Active(sessions[..n], busy)
    {
      assert sessions[..n + 1][..n] == sessions[..n];
      if IsBusy(sessions[n], busy) {
        active := active + [sessions[n]];
      }
    }
    assert sessions[..|sessions|] == sessions;
  }

  // ---------------------------------------------------------------------------
  // find_available_port (lines 58-66)

  predicate Taken(sessions: Sessions, busy: set<nat>, port: nat)
    requires NumericKeys(sessions)
  {
    port in UsedPorts(sessions) || port in busy
  }

  /** The first port of `pool` that no session holds and no socket uses. */
  function FirstFree(pool: seq<nat>, sessions: Sessions, busy: set<nat>): (r: Option<nat>)
    requires NumericKeys(sessions)
    ensures r.None? <==> forall j :: 0 <= j < |pool| ==> Taken(sessions, busy, pool[j])
    ensures r.Some? ==> !Taken(sessions, busy, r.value)
    ensures r.Some? ==>
      (exists k :: 0 <= k < |pool| && pool[k] == r.value && (forall j :: 0 <= j < k ==> Taken(sessions, busy, pool[j])))
  {
    if pool == [] then None
    else if !Taken(sessions, busy, pool[0]) then Some(pool[0])
    else
      var r := FirstFree(pool[1..], sessions, busy);
      assert r.Some? ==>
        (exists k :: 0 <= k < |pool| && pool[k] == r.value && (forall j :: 0 <= j < k ==> Taken(sessions, busy, pool[j]))) by {
        if r.Some? {
          var k :| 0 <= k < |pool[1..]| && pool[1..][k] == r.value &&
            (forall j :: 0 <= j < k ==> Taken(sessions, busy, pool[1..][j]));
          assert pool[k + 1] == r.value;
          forall j | 0 <= j < k + 1 ensures Taken(sessions, busy, pool[j]) {
            if j > 0 { assert pool[j] == pool[1..][j - 1]; }
          }
        }
      }
      r
  }

  method FindAvailablePort(sessions: Sessions, busy: set<nat>) returns (port: Option<nat>)
    requires NumericKeys(sessions)
    ensures port == FirstFree(PortPool, sessions, busy)
  {
    var usedPorts := set i | 0 <= i < |sessions| :: PortOf(sessions[i]);
    for k := 0 to |PortPool|
      invariant FirstFree(PortPool, sessions, busy) == FirstFree(PortPool[k..], sessions, busy)
    {
      if PortPool[k] !in usedPorts && PortPool[k] !in busy {
        return Some(PortPool[k]);
      }
      assert PortPool[k..][1..] == PortPool[k + 1..];
    }
    port := None;
  }

  // ---------------------------------------------------------------------------
  // get_project_port (lines 69-74)

  /** The port of the first session of the project, or None. */
  function ProjectPort(sessions: Sessions, projectPath: string): (r: Option<nat>)
    requires NumericKeys(sessions)
    ensures r.None? <==> forall i :: 0 <= i < |sessions| ==> sessions[i].project != projectPath
    ensures r.Some? ==>
      (exists i :: 0 <= i < |sessions| && sessions[i].project == projectPath && r.value == PortOf(sessions[i]) &&
        (forall j :: 0 <= j < i ==> sessions[j].project != projectPath))
  {
    if sessions == [] then None
    else if sessions[0].project == projectPath then Some(PortOf(sessions[0]))
    else
      var r := ProjectPort(sessions[1..], projectPath);
      assert r.Some? ==>
        (exists i :: 0 <= i < |sessions| && sessions[i].project == projectPath && r.value == PortOf(sessions[i]) &&
          (forall j :: 0 <= j < i ==> sessions[j].project != projectPath)) by {
        if r.Some? {
          var i :| 0 <= i < |sessions[1..]| && sessions[1..][i].project == projectPath && r.value == PortOf(sessions[1..][i]) &&
            (forall j :: 0 <= j < i ==> sessions[1..][j].project != projectPath);
          assert sessions[i + 1] == sessions[1..][i];
          forall j | 0 <= j < i + 1 ensures sessions[j].project != projectPath {
            if j > 0 { assert sessions[j] == sessions[1..][j - 1]; }
          }
        }
      }
      r
  }

  method GetProjectPort(sessions: Sessions, projectPath: string) returns (port: Option<nat>)
    requires NumericKeys(sessions)
    ensures port == ProjectPort(sessions, projectPath)
  {
    for n := 0 to |sessions|
      invariant ProjectPort(sessions, projectPath) == ProjectPort(sessions[n..], projectPath)
    {
      if sessions[n].project == projectPath {
        return Some(PortOf(sessions[n]));
      }
      assert sessions[n..][1..] == sessions[n + 1..];
    }
    port := None;
  }

  // ---------------------------------------------------------------------------
  // Registering and releasing a port (lines 141-152 and 181-185)

  /** The registered key is new: a free port is no session's port, so `str(port)` is no key. */
  lemma FreePortKeyIsNew(sessions: Sessions, busy: set<nat>, port: nat)
    requires NumericKeys(sessions)
    requires !Taken(sessions, busy, port)
    ensures Decimal.Show(port) !in Keys(sessions)
  {
    Decimal.ParseShow(port);
  }

  /** `del sessions[key]`: the items without that key, others in order. */
  function RemoveKey(s: Sessions, key: string): (r: Sessions)
    ensures |r| <= |s|
  {
    if s == [] then []
    else RemoveKey(s[..|s| - 1], key) + (if s[|s| - 1].key == key then [] else [s[|s| - 1]])
  }

  /** Removing a key drops exactly the entries with that key, and nothing else. */
  lemma {:induction false} RemoveKeyMembers(s: Sessions, key: string, x: Session)
    ensures x in RemoveKey(s, key) <==> x in s && x.key != key
  {
    if s != [] {
      var init := s[..|s| - 1];
      RemoveKeyMembers(init, key, x);
      assert s == init + [s[|s| - 1]];
    }
  }

  /** Removing an absent key changes nothing. */
  lemma {:induction false} RemoveAbsentKey(s: Sessions, key: string)
    requires key !in Keys(s)
    ensures RemoveKey(s, key) == s
  {
    if s != [] {
      var init := s[..|s| - 1];
      assert Keys(init) <= Keys(s);
      RemoveAbsentKey(init, key);
      assert s == init + [s[|s| - 1]];
    }
  }

  /** With distinct keys, removing a present key drops exactly one entry. */
  lemma {:induction false} RemovePresentKey(s: Sessions, key: string)
    requires DistinctKeys(s) && key in Keys(s)
    ensures |RemoveKey(s, key)| == |s| - 1
  {
    var init := s[..|s| - 1];
    var last := s[|s| - 1];
    assert DistinctKeys(init);
    if last.key == key {
      assert key !in Keys(init);
      RemoveAbsentKey(init, key);
    } else {
      assert key in Keys(init) by {
        var i :| 0 <= i < |s| && s[i].key == key;
        assert i < |s| - 1 && init[i].key == key;
      }
      RemovePresentKey(init, key);
    }
  }

  /** Removing keeps the keys distinct and numeric. */
  lemma {:induction false} RemoveKeyWellFormed(s: Sessions, key: string)
    requires WellFormed(s)
    ensures WellFormed(RemoveKey(s, key))
  {
    if s != [] {
      var init := s[..|s| - 1];
      var last := s[|s| - 1];
      RemoveKeyWellFormed(init, key);
      var a := RemoveKey(init, key);
      forall i | 0 <= i < |a| ensures a[i].key != last.key && Decimal.Parse(a[i].key).Some? {
        RemoveKeyMembers(init, key, a[i]);
        var j :| 0 <= j < |init| && init[j] == a[i];
        assert s[j] == a[i];
      }
    }
  }

  // ---------------------------------------------------------------------------
  // The pool bound: launcher-written sessions never exceed three

  function PoolKeys(): (keys: set<string>) {
    {Decimal.Show(8765), Decimal.Show(8766), Decimal.Show(8767)}
  }

  /** Every key was registered by the launcher, so it is a pool port's numeral. */
  predicate PoolOwned(s: Sessions) {
    forall i :: 0 <= i < |s| ==> s[i].key in PoolKeys()
  }

  lemma {:induction false} DistinctKeysCount(s: Sessions)
    requires DistinctKeys(s)
    ensures |Keys(s)| == |s|
  {
    if s != [] {
      var init := s[..|s| - 1];
      DistinctKeysCount(init);
      assert Keys(s) == Keys(init) + {s[|s| - 1].key};
      assert s[|s| - 1].key !in Keys(init);
    }
  }

  lemma {:induction false} SubsetCard(a: set<string>, b: set<string>)
    requires a <= b
    ensures |a| <= |b|
    decreases |b|
  {
    if b != {} {
      var x :| x in b;
      SubsetCard(a - {x}, b - {x});
    }
  }

  /** Sessions the launcher wrote number at most len(PORT_POOL). */
  lemma PoolBound(s: Sessions)
    requires DistinctKeys(s) && PoolOwned(s)
    ensures |s| <= |PortPool|
  {
    DistinctKeysCount(s);
    SubsetCard(Keys(s), PoolKeys());
  }

  /** Cleanup keeps sessions launcher-owned. */
  lemma ActivePoolOwned(s: Sessions, busy: set<nat>)
    requires PoolOwned(s)
    ensures PoolOwned(Active(s, busy))
  {
    var a := Active(s, busy);
    forall i | 0 <= i < |a| ensures a[i].key in PoolKeys() {
      ActiveMembers(s, busy, a[i]);
    }
  }

  /** Releasing a port keeps sessions launcher-owned. */
  lemma RemoveKeyPoolOwned(s: Sessions, key: string)
    requires PoolOwned(s)
    ensures PoolOwned(RemoveKey(s, key))
  {
    var a := RemoveKey(s, key);
    forall i | 0 <= i < |a| ensures a[i].key in PoolKeys() {
      RemoveKeyMembers(s, key, a[i]);
    }
  }

  // ---------------------------------------------------------------------------
  // main (lines 98-152 and 180-185)

  datatype LaunchOutcome =
    | Listed(active: Sessions)       // --list: the sessions after cleanup
    | ProjectMissing                 // segments.csv or the chunks directory is absent: exit 1
    | AlreadyRunning(port: nat)      // the project's port is in use: nothing registered
    | AllPortsInUse                  // no pool port is free: exit 1
    | Started(port: nat)             // registered; the server runs on `port`

  /**
   * What main decides once the stale sessions are gone, and the sessions it
   * saves: stop for --list or a missing project, stop when the project's
   * recorded port is non-zero and busy, otherwise register the first free
   * pool port (`sessions[str(port)] = project_path`; the key is new, see
   * DecideOutcomes, so the assignment appends).
   */
  function Decide(active: Sessions, projectPath: string, listOnly: bool, segmentsExists: bool,
                  chunksDirExists: bool, busy: set<nat>): (res: (LaunchOutcome, Sessions))
    requires NumericKeys(active)
    ensures res.0.Listed? <==> listOnly
    ensures res.0.ProjectMissing? <==> !listOnly && !(segmentsExists && chunksDirExists)
    ensures !res.0.Started? ==> res.1 == active
    ensures res.0.Started? ==> |res.1| == |active| + 1 && res.1[..|active|] == active
  {
    if listOnly then (Listed(active), active)
    else if !(segmentsExists && chunksDirExists) then (ProjectMissing, active)
    else
      var existing := ProjectPort(active, projectPath);
      if existing.Some? && existing.value != 0 && existing.value in busy then (AlreadyRunning(existing.value), active)
      else
        match FirstFree(PortPool, active, busy)
        case None => (AllPortsInUse, active)
        case Some(p) => (Started(p), active + [Session(Decimal.Show(p), projectPath)])
  }

  /** What each outcome means, and that only a start changes the saved sessions. */
  lemma DecideOutcomes(active: Sessions, projectPath: string, listOnly: bool, segmentsExists: bool,
                       chunksDirExists: bool, busy: set<nat>)
    requires NumericKeys(active)
    ensures var existing := ProjectPort(active, projectPath);
      !listOnly && segmentsExists && chunksDirExists && existing.Some? && existing.value != 0 && existing.value in busy ==>
        Decide(active, projectPath, listOnly, segmentsExists, chunksDirExists, busy) == (AlreadyRunning(existing.value), active)
    ensures var (outcome, saved) := Decide(active, projectPath, listOnly, segmentsExists, chunksDirExists, busy);
      && (!outcome.Started? ==> saved == active)
      && (outcome.AlreadyRunning? ==> outcome.port != 0 && outcome.port in busy && ProjectPort(active, projectPath) == Some(outcome.port))
      && (outcome.Started? ==> !(ProjectPort(active, projectPath).Some? && ProjectPort(active, projectPath).value != 0 &&
                                 ProjectPort(active, projectPath).value in busy))
      && (outcome.AllPortsInUse? ==> forall j :: 0 <= j < |PortPool| ==> Taken(active, busy, PortPool[j]))
      && (outcome.Started? ==>
            && !listOnly && segmentsExists && chunksDirExists
            && outcome.port in PortPool
            && outcome.port !in busy
            && outcome.port !in UsedPorts(active)
            && Decimal.Show(outcome.port) !in Keys(active)
            && saved == active + [Session(Decimal.Show(outcome.port), projectPath)])
  {
    var (outcome, saved) := Decide(active, projectPath, listOnly, segmentsExists, chunksDirExists, busy);
    if outcome.Started? {
      FreePortKeyIsNew(active, busy, outcome.port);
    }
  }

  /**
   * One instance per project: when the project has a session whose port is
   * still in use, the launcher answers "already running" and registers
   * nothing. Port 0 is never in use, so a live session's port is never the
   * falsy 0.
   */
  lemma {:induction false} RunningProjectNotRestarted(sessions: Sessions, projectPath: string, busy: set<nat>, i: nat)
    requires 0 !in busy
    requires i < |sessions| && sessions[i].project == projectPath && IsBusy(sessions[i], busy)
    ensures var active := Active(sessions, busy);
      && ProjectPort(active, projectPath).Some?
      && Decide(active, projectPath, false, true, true, busy) == (AlreadyRunning(ProjectPort(active, projectPath).value), active)
  {
    var active := Active(sessions, busy);
    ActiveMembers(sessions, busy, sessions[i]);
    var k :| 0 <= k < |active| && active[k] == sessions[i];
    assert active[k].project == projectPath;
    var port := ProjectPort(active, projectPath);
    var j :| 0 <= j < |active| && active[j].project == projectPath && port.value == PortOf(active[j]);
    assert IsBusy(active[j], busy);
  }

  /** The saved sessions keep distinct numeric keys. */
  lemma DecideWellFormed(active: Sessions, projectPath: string, listOnly: bool, segmentsExists: bool,
                         chunksDirExists: bool, busy: set<nat>)
    requires WellFormed(active)
    ensures WellFormed(Decide(active, projectPath, listOnly, segmentsExists, chunksDirExists, busy).1)
  {
    var (outcome, saved) := Decide(active, projectPath, listOnly, segmentsExists, chunksDirExists, busy);
    if outcome.Started? {
      var key := Decimal.Show(outcome.port);
      FreePortKeyIsNew(active, busy, outcome.port);
      Decimal.ParseShow(outcome.port);
      assert saved == active + [Session(key, projectPath)];
      forall i | 0 <= i < |active| ensures active[i].key != key {
        assert active[i].key in Keys(active);
      }
    }
  }

  /** Every key the launcher saves is a pool port's numeral. */
  lemma DecidePoolOwned(active: Sessions, projectPath: string, listOnly: bool, segmentsExists: bool,
                        chunksDirExists: bool, busy: set<nat>)
    requires NumericKeys(active) && PoolOwned(active)
    ensures PoolOwned(Decide(active, projectPath, listOnly, segmentsExists, chunksDirExists, busy).1)
  {
    var (outcome, saved) := Decide(active, projectPath, listOnly, segmentsExists, chunksDirExists, busy);
    if outcome.Started? {
      assert outcome.port in PortPool;
      assert saved == active + [Session(Decimal.Show(outcome.port), projectPath)];
    }
  }

  /** The lock file `.active_sessions.json`, read and written whole. */
  class SessionStore {
    var sessions: Sessions

    ghost predicate Valid()
      reads this
    {
      WellFormed(sessions)
    }

    constructor (initial: Sessions)
      requires WellFormed(initial)
      ensures Valid() && sessions == initial
    {
      sessions := initial;
    }

    /** main up to the server start: clean up and save, then decide and save. */
    method Launch(projectPath: string, listOnly: bool, segmentsExists: bool, chunksDirExists: bool, busy: set<nat>)
      returns (outcome: LaunchOutcome)
      requires Valid()
      modifies this
      ensures Valid()
      ensures (outcome, sessions) ==
        Decide(Active(old(sessions), busy), projectPath, listOnly, segmentsExists, chunksDirExists, busy)
      ensures PoolOwned(old(sessions)) ==> PoolOwned(sessions)
      ensures outcome.Started? ==>
        var existing := ProjectPort(Active(old(sessions), busy), projectPath);
        !(existing.Some? && existing.value != 0 && existing.value in busy)
    {
      ghost var before := sessions;
      var active := CleanupStaleSessions(sessions, busy);
      ActiveWellFormed(sessions, busy);
      DecideWellFormed(active, projectPath, listOnly, segmentsExists, chunksDirExists, busy);
      if PoolOwned(before) {
        ActivePoolOwned(before, busy);
        DecidePoolOwned(active, projectPath, listOnly, segmentsExists, chunksDirExists, busy);
      }
      sessions := active;
      if listOnly {
        return Listed(active);
      }
      if !segmentsExists || !chunksDirExists {
        return ProjectMissing;
      }
      var existing := GetProjectPort(active, projectPath);
      if existing.Some? && existing.value != 0 && existing.value in busy {
        return AlreadyRunning(existing.value);
      }
      var port := FindAvailablePort(active, busy);
      if port.None? {
        return AllPortsInUse;
      }
      sessions := active + [Session(Decimal.Show(port.value), projectPath)];
      outcome := Started(port.value);
    }

    /** The `finally` block: forget this port's session if it is still there. */
    method Release(port: nat)
      requires Valid()
      modifies this
      ensures Valid()
      ensures sessions == RemoveKey(old(sessions), Decimal.Show(port))
      ensures Decimal.Show(port) !in Keys(old(sessions)) ==> sessions == old(sessions)
      ensures Decimal.Show(port) in Keys(old(sessions)) ==>
        |sessions| == |old(sessions)| - 1 && Decimal.Show(port) !in Keys(sessions)
      ensures PoolOwned(old(sessions)) ==> PoolOwned(sessions)
    {
      var key := Decimal.Show(port);
      RemoveKeyWellFormed(sessions, key);
      if PoolOwned(sessions) {
        RemoveKeyPoolOwned(sessions, key);
      }
      if key in Keys(sessions) {
        RemovePresentKey(sessions, key);
        var removed := RemoveKey(sessions, key);
        forall i | 0 <= i < |removed| ensures removed[i].key != key {
          RemoveKeyMembers(sessions, key, removed[i]);
        }
        sessions := removed;
      } else {
        RemoveAbsentKey(sessions, key);
      }
    }
  }
}
