/** `src/main/java/indexer/fsmonitor/RootMonitorHandler.java`: the
    lifecycle handler the main manager gives its root monitors. A restart
    needs nothing; a monitor that goes down is removed from the manager and
    a sticky flag is raised. */
module RootMonitorHandlers {
  import opened JavaTypes
  import opened PathUtils
  import opened MonitorRegistry
  import opened MonitorsManager

  class RootMonitorHandler {
    const monitorsManager: FSMonitorsManager
    var monitorIsDown: bool

    constructor (monitorsManager: FSMonitorsManager)
      ensures this.monitorsManager == monitorsManager && !monitorIsDown
    {
      this.monitorsManager := monitorsManager;
      monitorIsDown := false;
    }

    /** `onMonitorRestart(dir)` does nothing and cannot fail. */
    method OnMonitorRestart(dir: Path) returns (r: Outcome<()>)
      ensures r == Return(())
    {
      r := Return(());
    }

    /** `onMonitorDown(dir)`: `removeMonitor(dir)` on the manager, then the
        flag is raised; a failing stop (`stopThrows`) becomes
        `NotHandledEventException` and leaves the flag and the manager as
        they were. */
    method OnMonitorDown(dir: Path, stopThrows: bool) returns (r: Outcome<()>)
      requires monitorsManager.Valid()
      modifies this, monitorsManager
      ensures monitorsManager.Valid()
      ensures monitorsManager.Abs() == MonitorRegistry.RemoveMonitor(old(monitorsManager.Abs()), dir, stopThrows).0
      ensures r.Throw? <==> dir in old(monitorsManager.monitors) && stopThrows
      ensures r.Throw? ==> r == Throw(NotHandledEvent) && monitorIsDown == old(monitorIsDown)
      ensures r.Return? ==> monitorIsDown && dir !in monitorsManager.monitors
    {
      var removed := monitorsManager.RemoveMonitor(dir, stopThrows);
      if removed.Throw? {
        return Throw(NotHandledEvent);
      }
      monitorIsDown := true;
      r := Return(());
    }

    /** `isMonitorDown()`: whether a monitor went down and was removed. */
    function IsMonitorDown(): (r: bool)
      reads this
      ensures r <==> monitorIsDown
    {
      monitorIsDown
    }
  }
}
