/** `src/main/java/indexer/fsmonitor/FSMonitorsManager.java`: the registry of
    running monitors by target path. Monitors are identities; what the
    manager does to them (stopping, starting a runner thread) is recorded in
    the `stopped` and `started` fields. */
module MonitorsManager {
  import opened JavaTypes
  import opened PathUtils
  import opened MonitorRegistry

  class FSMonitorsManager {
    var monitors: Registry
    /** The monitors whose `stopMonitoring()` has returned. */
    var stopped: set<MonitorId>
    /** The runner threads started, in order. */
    var started: seq<Runner>
    var errorOccurred: bool
    /** The identity the next monitor created gets. */
    var nextMonitor: nat

    /** The manager's current value. */
    function Abs(): Manager
      reads this
    {
      Manager(monitors, stopped, started, errorOccurred, nextMonitor)
    }

    ghost predicate Valid()
      reads this
    {
      ManagerInv(Abs())
    }

    /** A new manager has no monitors and no error. */
    constructor ()
      ensures Valid() && Abs() == NewManager()
    {
      monitors := map[];
      stopped := {};
      started := [];
      errorOccurred := false;
      nextMonitor := 0;
    }

    /** `addMonitor(target, restartsCounter)`; `constructs` says whether
        creating the monitor succeeds. A covered target is a no-op returning
        true; otherwise the monitors under the target are stopped and dropped
        first, and then either the new monitor is registered under the target
        and its runner started, or the call returns false. */
    method AddMonitor(target: Path, restartsCounter: int, constructs: bool) returns (r: bool)
      requires Valid()
      modifies this
      ensures Valid()
      ensures (Abs(), r) == MonitorRegistry.AddMonitor(old(Abs()), target, restartsCounter, constructs)
    {
      ghost var m0 := monitors;
      AddMonitorPreservesInv(old(Abs()), target, restartsCounter, constructs);
      ghost var visited;
      var needed;
      needed, visited := AddingIsNeeded(target);
      if !needed {
        CoveredDropsNothing(m0, target, visited);
        assert monitors == old(monitors) && stopped == old(stopped);
        return true;
      }
      CompleteWalk(m0, target);
      if !constructs {
        return false;
      }
      var newMonitor := MonitorId(nextMonitor);
      nextMonitor := nextMonitor + 1;
      monitors := monitors[target := newMonitor];
      started := started + [Runner(newMonitor, target, restartsCounter)];
      return true;
    }

    /** `addingIsNeeded(target)`: walk the registry; stop at a path covering
        the target (false), and stop and drop every path under the target met
        on the way. The walk order is the map's; `visited` is the part walked
        before the answer. */
    method AddingIsNeeded(target: Path) returns (needed: bool, ghost visited: set<Path>)
      modifies this
      ensures needed <==> !Covered(old(monitors), target)
      ensures visited <= old(monitors).Keys && (needed ==> visited == old(monitors).Keys)
      ensures forall k :: k in visited ==> !Covers(k, target)
      ensures monitors == Drop(old(monitors), target, visited)
      ensures stopped == old(stopped) + Stopped(old(monitors), target, visited)
      ensures started == old(started) && errorOccurred == old(errorOccurred)
      ensures nextMonitor == old(nextMonitor)
    {
      ghost var m0 := monitors;
      var keys := monitors.Keys;
      visited := {};
      while keys != {}
        invariant keys <= m0.Keys && visited == m0.Keys - keys
        invariant forall k :: k in visited ==> !Covers(k, target)
        invariant monitors == Drop(m0, target, visited)
        invariant stopped == old(stopped) + Stopped(m0, target, visited)
        invariant started == old(started) && errorOccurred == old(errorOccurred)
        invariant nextMonitor == old(nextMonitor)
        decreases keys
      {
        var current :| current in keys;
        if Covers(current, target) {
          return false, visited;
        } else if FirstPathIsParent(target, current) {
          stopped := stopped + {monitors[current]};
          monitors := monitors - {current};
        }
        keys := keys - {current};
        visited := visited + {current};
      }
      return true, visited;
    }

    /** `removeMonitor(target)`; `stopThrows` says whether the monitor's
        `stopMonitoring()` throws. Only an exact key is removed, after its
        monitor is stopped; an enclosing monitor does not count. */
    method RemoveMonitor(target: Path, stopThrows: bool) returns (r: Outcome<bool>)
      requires Valid()
      modifies this
      ensures Valid()
      ensures (Abs(), r) == MonitorRegistry.RemoveMonitor(old(Abs()), target, stopThrows)
    {
      if target in monitors {
        var monitor := monitors[target];
        if stopThrows {
          return Throw(IOError);
        }
        RemoveMonitorOutcome(old(Abs()), target, stopThrows);
        stopped := stopped + {monitor};
        monitors := monitors - {target};
        return Return(true);
      }
      return Return(false);
    }

    /** `stopAllMonitors()`: every registered monitor is stopped; the
        registry itself is kept. */
    method StopAllMonitors()
      modifies this
      ensures Abs() == StopAll(old(Abs()))
    {
      var rest := monitors.Values;
      while rest != {}
        invariant rest <= monitors.Values
        invariant stopped == old(stopped) + (monitors.Values - rest)
        invariant monitors == old(monitors) && started == old(started)
        invariant errorOccurred == old(errorOccurred) && nextMonitor == old(nextMonitor)
        decreases rest
      {
        var monitor :| monitor in rest;
        stopped := stopped + {monitor};
        rest := rest - {monitor};
      }
    }

    /** `isErrorOccurred()`: whether a runner's lifecycle callback threw. */
    function IsErrorOccurred(): (r: bool)
      reads this
      ensures r == Abs().errorOccurred
    {
      errorOccurred
    }
  }

  /** `FSMonitorsManager.MonitorRunner`: runs one monitor, restarting it
      while its counter, lowered on each failure, stays `>= 0`. */
  class MonitorRunner {
    const manager: FSMonitorsManager
    const monitor: MonitorId
    const target: Path
    var restartsCounter: int

    constructor (manager: FSMonitorsManager, monitor: MonitorId, target: Path, restartsCounter: int)
      ensures this.manager == manager && this.monitor == monitor && this.target == target
      ensures this.restartsCounter == restartsCounter
    {
      this.manager := manager;
      this.monitor := monitor;
      this.target := target;
      this.restartsCounter := restartsCounter;
    }

    /** `run()`, with its recursion unrolled into a loop over the outcomes
        `runs` of the successive `startMonitoring()` calls. `callbacks` are
        the lifecycle callbacks invoked for `target`, in order. */
    method Run(runs: seq<Run>) returns (callbacks: seq<Callback>)
      modifies this, manager
      ensures var o := RunTrace(runs, old(restartsCounter), 0);
              && callbacks == o.callbacks && restartsCounter == o.counter
              && manager.errorOccurred == (old(manager.errorOccurred) || o.error)
      ensures manager.Abs() == old(manager.Abs()).(errorOccurred := manager.errorOccurred)
    {
      ghost var goal := RunTrace(runs, restartsCounter, 0);
      callbacks := [];
      var i := 0;
      while i < |runs|
        invariant 0 <= i <= |runs|
        invariant var rest := RunTrace(runs[i..], restartsCounter, 0);
                  goal == rest.(callbacks := callbacks + rest.callbacks)
        invariant manager.errorOccurred == old(manager.errorOccurred)
        invariant manager.monitors == old(manager.monitors) && manager.stopped == old(manager.stopped)
        invariant manager.started == old(manager.started) && manager.nextMonitor == old(manager.nextMonitor)
        decreases |runs| - i
      {
        ghost var rest := RunTrace(runs[i..], restartsCounter, 0);
        match runs[i]
        case Returned =>
          assert callbacks + rest.callbacks == callbacks;
          return;
        case Failed(callbackThrows) =>
          restartsCounter := restartsCounter - 1;
          if restartsCounter >= 0 {
            callbacks := callbacks + [Restart];
            if callbackThrows {
              manager.errorOccurred := true;
              return;
            }
            assert runs[i..][1..] == runs[i + 1..];
            assert callbacks + RunTrace(runs[i + 1..], restartsCounter, 0).callbacks
                   == (callbacks[..|callbacks| - 1]) + rest.callbacks;
            i := i + 1;
          } else {
            callbacks := callbacks + [Down];
            if callbackThrows {
              manager.errorOccurred := true;
            }
            return;
          }
      }
      assert runs[i..] == [];
      assert callbacks + [] == callbacks;
    }
  }
}
