/** The value-level meaning shared by both `FSMonitorsManager` variants
    (`src/main/java/indexer/fsmonitor/FSMonitorsManager.java` and
    `src/indexer/fsmonitor/FSMonitorsManager.java`): the registry of monitors
    by target path, the overlap rule `addingIsNeeded` enforces, and the
    restart rule of `MonitorRunner.run`. */
module MonitorRegistry {
  import opened JavaTypes
  import opened PathUtils

  /** A monitor object, known only by its identity. */
  datatype MonitorId = MonitorId(n: nat)

  type Registry = map<Path, MonitorId>

  /** A registered path that makes a new monitor for `target` unnecessary:
      `pathsAreEqual(current, target) || firstPathIsParent(current, target)`. */
  predicate Covers(current: Path, target: Path) {
    PathsAreEqual(current, target) || FirstPathIsParent(current, target)
  }

  predicate Covered(m: Registry, target: Path) {
    exists k :: k in m && Covers(k, target)
  }

  /** No registered path lies under another one. */
  ghost predicate NoOverlap(m: Registry) {
    forall a, b :: a in m && b in m && a != b ==> !FirstPathIsParent(a, b)
  }

  /** The registry once `addingIsNeeded(target)` has visited the paths in
      `visited`: each visited path under `target` is gone. */
  function Drop(m: Registry, target: Path, visited: set<Path>): Registry {
    map k | k in m && !(k in visited && FirstPathIsParent(target, k)) :: m[k]
  }

  /** The monitors stopped by that walk. */
  function Stopped(m: Registry, target: Path, visited: set<Path>): set<MonitorId> {
    set k | k in m && k in visited && FirstPathIsParent(target, k) :: m[k]
  }

  /** What a completed walk leaves: no path under `target` at all. */
  function WithoutUnder(m: Registry, target: Path): Registry {
    map k | k in m && !FirstPathIsParent(target, k) :: m[k]
  }

  // ----------------------------------------------------------- manager state

  /** The value of a manager: its registry, the monitors stopped so far, the
      runner threads started so far, its error flag and the identity the next
      monitor created gets. */
  datatype Manager = Manager(
    monitors: Registry,
    stopped: set<MonitorId>,
    started: seq<Runner>,
    errorOccurred: bool,
    nextMonitor: nat)

  /** No overlapping targets, every registered monitor was created before
      the next one, and no monitor is registered under two targets. */
  ghost predicate ManagerInv(m: Manager) {
    && NoOverlap(m.monitors)
    && (forall k :: k in m.monitors ==> m.monitors[k].n < m.nextMonitor)
    && (forall a, b :: a in m.monitors && b in m.monitors && a != b ==> m.monitors[a] != m.monitors[b])
  }

  /** A newly constructed manager. */
  function NewManager(): Manager {
    Manager(map[], {}, [], false, 0)
  }

  /** `addMonitor(target, restartsCounter)`, `constructs` saying whether
      creating the monitor succeeds: a covered target changes nothing and
      answers true; otherwise the monitors under the target are stopped and
      dropped, and then the new monitor is registered and its runner started,
      or the call answers false. */
  function AddMonitor(m: Manager, target: Path, restarts: int, constructs: bool): (Manager, bool) {
    if Covered(m.monitors, target) then (m, true)
    else
      var cleared := m.(monitors := WithoutUnder(m.monitors, target),
                        stopped := m.stopped + Stopped(m.monitors, target, m.monitors.Keys));
      if !constructs then (cleared, false)
      else
        var id := MonitorId(m.nextMonitor);
        (cleared.(monitors := cleared.monitors[target := id],
                  started := m.started + [Runner(id, target, restarts)],
                  nextMonitor := m.nextMonitor + 1), true)
  }

  /** `removeMonitor(target)` of the main manager, `stopThrows` saying
      whether `stopMonitoring()` throws: an exact key is stopped, then
      dropped. */
  function RemoveMonitor(m: Manager, target: Path, stopThrows: bool): (Manager, Outcome<bool>) {
    if target !in m.monitors then (m, Return(false))
    else if stopThrows then (m, Throw(IOError))
    else (m.(monitors := m.monitors - {target}, stopped := m.stopped + {m.monitors[target]}), Return(true))
  }

  /** `removeMonitor(directory)` of the old manager: an exact key is dropped
      and its monitor is not stopped. */
  function RemoveUnstopped(m: Manager, target: Path): (Manager, bool) {
    (m.(monitors := m.monitors - {target}), target in m.monitors)
  }

  /** `stopAllMonitors()`: every registered monitor is stopped and stays
      registered. */
  function StopAll(m: Manager): Manager {
    m.(stopped := m.stopped + m.monitors.Values)
  }

  // ---------------------------------------------------------------- restarts

  /** One call of `monitor.startMonitoring()`: it returns, or it throws
      `NotHandledEventException`, and then the lifecycle callback invoked
      next may itself throw. */
  datatype Run = Returned | Failed(callbackThrows: bool)

  /** A lifecycle callback invoked by the runner. */
  datatype Callback = Restart | Down

  /** What a runner did: the callbacks it invoked in order, whether it set
      the error flag, and its counter at the end. */
  datatype RunOutcome = RunOutcome(callbacks: seq<Callback>, error: bool, counter: int)

  /** `MonitorRunner.run` unrolled over the outcomes of successive
      `startMonitoring` calls: a failure lowers the counter; if it is still
      at least `least` the monitor is restarted (`onMonitorRestart`, then a
      rerun), otherwise `onMonitorDown` ends the runner. A throwing callback
      sets the error flag and ends the runner. The main variant restarts
      while the counter is `>= 0` (`least == 0`), the old one while it is
      `> 0` (`least == 1`). Outcomes beyond the sequence are not modelled. */
  function RunTrace(runs: seq<Run>, counter: int, least: int): RunOutcome
    decreases |runs|
  {
    if runs == [] then RunOutcome([], false, counter)
    else match runs[0]
      case Returned => RunOutcome([], false, counter)
      case Failed(throws) =>
        var c := counter - 1;
        if c >= least then
          if throws then RunOutcome([Restart], true, c)
          else
            var rest := RunTrace(runs[1..], c, least);
            rest.(callbacks := [Restart] + rest.callbacks)
        else RunOutcome([Down], throws, c)
  }

  /** A started `MonitorRunner` thread: its monitor, target and budget. */
  datatype Runner = Runner(monitor: MonitorId, target: Path, restarts: int)

  /** `k` failures in a row whose callbacks all succeed. */
  function Failures(k: nat): (r: seq<Run>)
    ensures |r| == k && forall i :: 0 <= i < k ==> r[i] == Failed(false)
  {
    if k == 0 then [] else [Failed(false)] + Failures(k - 1)
  }

  function Restarts(k: nat): (r: seq<Callback>)
    ensures |r| == k && forall i :: 0 <= i < k ==> r[i] == Restart
  {
    if k == 0 then [] else [Restart] + Restarts(k - 1)
  }

  function Max0(x: int): nat {
    if x < 0 then 0 else x
  }

  // ================================================================ lemmas

  /** When the target is covered and no paths overlap, nothing in the
      registry lies under the target except the target itself, so the walk
      drops nothing whatever it visited before it stopped. */
  lemma CoveredDropsNothing(m: Registry, target: Path, visited: set<Path>)
    requires NoOverlap(m) && Covered(m, target)
    requires forall k :: k in visited ==> !Covers(k, target)
    ensures Drop(m, target, visited) == m && Stopped(m, target, visited) == {}
  {
    var c :| c in m && Covers(c, target);
    forall k | k in m && k in visited
      ensures !FirstPathIsParent(target, k)
    {
      assert k != c;
      ParentTransitive(c, target, k);
    }
  }

  /** A completed walk removes every path under the target. */
  lemma CompleteWalk(m: Registry, target: Path)
    ensures Drop(m, target, m.Keys) == WithoutUnder(m, target)
  {
  }

  /** `addMonitor` keeps the registry free of overlaps: after the paths under
      the target are gone, an uncovered target overlaps with nothing. */
  lemma AddKeepsNoOverlap(m: Registry, target: Path, added: MonitorId)
    requires NoOverlap(m) && !Covered(m, target)
    ensures NoOverlap(WithoutUnder(m, target)[target := added])
  {
    var m' := WithoutUnder(m, target)[target := added];
    forall a, b | a in m' && b in m' && a != b
      ensures !FirstPathIsParent(a, b)
    {
      if a == target {
        assert b in m && !FirstPathIsParent(target, b);
      } else if b == target {
        assert a in m && !Covers(a, target);
      }
    }
  }

  lemma RemoveKeepsNoOverlap(m: Registry, target: Path)
    requires NoOverlap(m)
    ensures NoOverlap(m - {target})
  {
  }

  /** A monitor whose first run returns normally fires no callback. */
  lemma ReturnFiresNothing(runs: seq<Run>, counter: int, least: int)
    requires runs != [] && runs[0] == Returned
    ensures RunTrace(runs, counter, least).callbacks == [] && !RunTrace(runs, counter, least).error
  {
  }

  /** The restart rule: with budget `n`, the first `max(n - least, 0)`
      failures each restart the monitor and the next one takes it down. */
  lemma {:induction false} RestartRule(k: nat, n: int, least: int)
    requires k > Max0(n - least)
    ensures RunTrace(Failures(k), n, least).callbacks == Restarts(Max0(n - least)) + [Down]
    ensures !RunTrace(Failures(k), n, least).error
    decreases k
  {
    var runs := Failures(k);
    assert runs[0] == Failed(false);
    assert runs[1..] == Failures(k - 1);
    if n - 1 >= least {
      RestartRule(k - 1, n - 1, least);
      var rest := Restarts(Max0(n - 1 - least));
      assert Restarts(Max0(n - least)) == [Restart] + rest;
      assert RunTrace(runs, n, least).callbacks == [Restart] + (rest + [Down]);
      assert [Restart] + (rest + [Down]) == ([Restart] + rest) + [Down];
    } else {
      assert Restarts(Max0(n - least)) + [Down] == [Down];
    }
  }

  /** A throwing `onMonitorRestart` ends the runner: no rerun follows. */
  lemma ThrowingRestartStops(runs: seq<Run>, counter: int, least: int)
    requires runs != [] && runs[0] == Failed(true) && counter - 1 >= least
    ensures RunTrace(runs, counter, least).callbacks == [Restart] && RunTrace(runs, counter, least).error
  {
  }

  /** The error flag is raised only by a throwing callback, and the trace ends
      with the callback that threw. */
  lemma {:induction false} ErrorNeedsThrow(runs: seq<Run>, counter: int, least: int)
    ensures RunTrace(runs, counter, least).error ==> exists i :: 0 <= i < |runs| && runs[i] == Failed(true)
    ensures |RunTrace(runs, counter, least).callbacks| <= |runs|
    decreases |runs|
  {
    if runs != [] && runs[0].Failed? && !runs[0].callbackThrows && counter - 1 >= least {
      ErrorNeedsThrow(runs[1..], counter - 1, least);
      if RunTrace(runs, counter, least).error {
        var i :| 0 <= i < |runs[1..]| && runs[1..][i] == Failed(true);
        assert runs[i + 1] == Failed(true);
      }
    }
  }

  /** Only the last callback of a trace can be `onMonitorDown`. */
  lemma {:induction false} DownIsLast(runs: seq<Run>, counter: int, least: int)
    ensures forall i :: 0 <= i < |RunTrace(runs, counter, least).callbacks| - 1 ==> RunTrace(runs, counter, least).callbacks[i] == Restart
    decreases |runs|
  {
    if runs != [] && runs[0].Failed? && !runs[0].callbackThrows && counter - 1 >= least {
      DownIsLast(runs[1..], counter - 1, least);
      var rest := RunTrace(runs[1..], counter - 1, least).callbacks;
      var tr := RunTrace(runs, counter, least).callbacks;
      assert forall j :: 0 <= j < |rest| - 1 ==> rest[j] == Restart;
      assert tr == [Restart] + rest;
      forall i | 0 <= i < |tr| - 1
        ensures tr[i] == Restart
      {
        if i > 0 {
          assert tr[i] == rest[i - 1];
        }
      }
    }
  }

  // ------------------------------------------------------- manager lemmas

  lemma NewManagerInv()
    ensures ManagerInv(NewManager())
  {
  }

  lemma AddMonitorPreservesInv(m: Manager, target: Path, restarts: int, constructs: bool)
    requires ManagerInv(m)
    ensures ManagerInv(AddMonitor(m, target, restarts, constructs).0)
  {
    if !Covered(m.monitors, target) && constructs {
      AddKeepsNoOverlap(m.monitors, target, MonitorId(m.nextMonitor));
    }
  }

  /** What `addMonitor` promises: it answers true exactly when the target
      was covered or the monitor could be created, and then the target is
      covered; no monitor the target does not enclose is touched; an
      uncovered target leaves no other path under it and gets a monitor that
      was not registered before. */
  lemma AddMonitorOutcome(m: Manager, target: Path, restarts: int, constructs: bool)
    requires ManagerInv(m)
    ensures var (m', r) := AddMonitor(m, target, restarts, constructs);
            && (r <==> Covered(m.monitors, target) || constructs)
            && (r ==> Covered(m'.monitors, target))
            && (forall k :: k in m.monitors && !FirstPathIsParent(target, k) ==>
                  k in m'.monitors && m'.monitors[k] == m.monitors[k])
            && (!Covered(m.monitors, target) ==>
                  forall k :: k in m'.monitors && FirstPathIsParent(target, k) ==> k == target)
            && (!Covered(m.monitors, target) && constructs ==>
                  target in m'.monitors && m'.monitors[target] !in m.monitors.Values
                  && |m'.started| == |m.started| + 1)
            && m'.errorOccurred == m.errorOccurred
  {
    var (m', r) := AddMonitor(m, target, restarts, constructs);
    if r && !Covered(m.monitors, target) {
      assert target in m'.monitors && Covers(target, target);
    }
    if !Covered(m.monitors, target) && constructs {
      var id := MonitorId(m.nextMonitor);
      forall k | k in m.monitors
        ensures m.monitors[k] != id
      {
      }
    }
  }

  /** Adding a target that was just added successfully is a no-op. */
  lemma AddMonitorIdempotent(m: Manager, target: Path, restarts: int, constructs: bool, restarts': int, constructs': bool)
    requires ManagerInv(m) && AddMonitor(m, target, restarts, constructs).1
    ensures var m' := AddMonitor(m, target, restarts, constructs).0;
            AddMonitor(m', target, restarts', constructs') == (m', true)
  {
    AddMonitorOutcome(m, target, restarts, constructs);
  }

  /** What the main `removeMonitor` promises: only an exact, stoppable key
      is removed and its monitor stopped; a failing stop changes nothing. */
  lemma RemoveMonitorOutcome(m: Manager, target: Path, stopThrows: bool)
    requires ManagerInv(m)
    ensures var (m', r) := RemoveMonitor(m, target, stopThrows);
            && ManagerInv(m')
            && (r == Return(true) <==> target in m.monitors && !stopThrows)
            && (r == Throw(IOError) <==> target in m.monitors && stopThrows)
            && (r.Throw? ==> m' == m)
            && (target !in m'.monitors <==> target !in m.monitors || !stopThrows)
            && (forall k :: k != target ==> (k in m'.monitors <==> k in m.monitors))
            && (r == Return(true) ==> m.monitors[target] in m'.stopped)
  {
    RemoveKeepsNoOverlap(m.monitors, target);
  }

  /** The old `removeMonitor` drops the key but leaves its monitor running:
      the dropped monitor is neither registered nor stopped afterwards. */
  lemma RemoveUnstoppedLeavesMonitorRunning(m: Manager, target: Path)
    requires ManagerInv(m) && target in m.monitors && m.monitors[target] !in m.stopped
    ensures var (m', r) := RemoveUnstopped(m, target);
            && r && ManagerInv(m')
            && m.monitors[target] !in m'.monitors.Values && m.monitors[target] !in m'.stopped
  {
    RemoveKeepsNoOverlap(m.monitors, target);
    var id := m.monitors[target];
    forall k | k in m.monitors && k != target
      ensures m.monitors[k] != id
    {
    }
  }

  /** After `stopAllMonitors` every registered monitor is stopped and the
      registry is unchanged, so a second call changes nothing. */
  lemma StopAllOutcome(m: Manager)
    requires ManagerInv(m)
    ensures ManagerInv(StopAll(m))
    ensures forall k :: k in m.monitors ==> m.monitors[k] in StopAll(m).stopped
    ensures StopAll(m).monitors == m.monitors && StopAll(StopAll(m)) == StopAll(m)
  {
  }
}
