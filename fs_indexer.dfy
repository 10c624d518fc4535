/** `src/main/java/indexer/FSIndexer.java`: the façade over the lazy index,
    the events handler, the lifecycle handler and the monitors manager.
    Every query and update first checks the façade's state; the events
    handler is known by its interface, and the lifecycle handler is the
    `IndexMonitorHandler` the indexer is built with. */
module Indexer {
  import opened JavaTypes
  import opened PathUtils
  import opened Files
  import opened LazyIndexSpec
  import opened LazyIndex
  import opened IndexEvents
  import opened IndexMonitorHandlers
  import opened MonitorRegistry
  import opened MonitorsManager

  /** `MONITOR_RESTARTS_NUMBER`: the restart budget of every monitor. */
  const MonitorRestartsNumber := 3

  /** `checkState()` on the flags it reads: a closed index is reported
      first, an inconsistent one next. */
  function StateCheck(closed: bool, monitorDown: bool, errorOccurred: bool): (r: Outcome<()>)
    ensures r == Throw(IndexClosed) <==> closed
    ensures r == Throw(InconsistentIndex) <==> !closed && (monitorDown || errorOccurred)
    ensures r == Return(()) <==> !closed && !monitorDown && !errorOccurred
  {
    if closed then Throw(IndexClosed)
    else if monitorDown || errorOccurred then Throw(InconsistentIndex)
    else Return(())
  }

  class FSIndexer {
    const fileIndex: HashFileIndex
    const indexEventsHandler: EventsHandler
    const fsMonitorLifecycleHandler: IndexMonitorHandler
    const monitorsManager: FSMonitorsManager
    var isClosed: bool

    ghost predicate Valid()
      reads this, fileIndex, fileIndex.idFileMap.Values, monitorsManager
    {
      fileIndex.Valid() && monitorsManager.Valid()
    }

    /** The indexer starts open, with a new monitors manager. */
    constructor (fileIndex: HashFileIndex, indexEventsHandler: EventsHandler,
                 fsMonitorLifecycleHandler: IndexMonitorHandler)
      requires fileIndex.Valid()
      ensures Valid() && !isClosed && monitorsManager.Abs() == NewManager()
      ensures this.fileIndex == fileIndex && this.indexEventsHandler == indexEventsHandler
      ensures this.fsMonitorLifecycleHandler == fsMonitorLifecycleHandler
      ensures fresh(monitorsManager)
    {
      this.fileIndex := fileIndex;
      this.indexEventsHandler := indexEventsHandler;
      this.fsMonitorLifecycleHandler := fsMonitorLifecycleHandler;
      monitorsManager := new FSMonitorsManager();
      isClosed := false;
    }

    /** `checkState()`: passes only for an open indexer with no monitor down
        and no runner error; a closed one is reported before an inconsistent one. */
    function CheckState(): (r: Outcome<()>)
      reads this, fsMonitorLifecycleHandler, monitorsManager
      ensures r.Return? <==> !isClosed && !fsMonitorLifecycleHandler.monitorIsDown && !monitorsManager.errorOccurred
      ensures r.Throw? ==> r.failure == if isClosed then IndexClosed else InconsistentIndex
    {
      StateCheck(isClosed, fsMonitorLifecycleHandler.IsSomeMonitorDown(), monitorsManager.IsErrorOccurred())
    }

    /** `search(token)`: after the check, the index's search. */
    method Search(tokenToFind: Token) returns (r: Outcome<seq<Path>>)
      requires Valid()
      modifies fileIndex, fileIndex.idFileMap.Values
      ensures Valid()
      ensures CheckState().Throw? ==> r == Throw(CheckState().failure) && fileIndex.Abs() == old(fileIndex.Abs())
      ensures CheckState().Return? ==>
                var (s', found) := LazyIndexSpec.Search(old(fileIndex.Abs()), tokenToFind);
                r == Return(found) && fileIndex.Abs() == s'
    {
      var check := CheckState();
      if check.Throw? {
        return Throw(check.failure);
      }
      var found := fileIndex.Search(tokenToFind);
      r := Return(found);
    }

    /** `add(path)`: after the check, the added event; a failing event
        becomes an `IOException` and registers no monitor, otherwise a
        monitor is added for the path, its answer ignored. */
    method Add(path: Path, addedFails: bool, constructs: bool) returns (r: Outcome<()>)
      requires Valid()
      modifies indexEventsHandler, monitorsManager
      ensures Valid()
      ensures old(CheckState()).Throw? ==>
                && r == old(CheckState())
                && indexEventsHandler.received == old(indexEventsHandler.received)
                && monitorsManager.Abs() == old(monitorsManager.Abs())
      ensures old(CheckState()).Return? ==>
                indexEventsHandler.received == old(indexEventsHandler.received) + [FilesAdded(path)]
      ensures old(CheckState()).Return? && addedFails ==>
                r == Throw(IOError) && monitorsManager.Abs() == old(monitorsManager.Abs())
      ensures old(CheckState()).Return? && !addedFails ==>
                && r == Return(())
                && monitorsManager.Abs()
                   == MonitorRegistry.AddMonitor(old(monitorsManager.Abs()), path, MonitorRestartsNumber, constructs).0
    {
      var check := CheckState();
      if check.Throw? {
        return Throw(check.failure);
      }
      var event := indexEventsHandler.Handle(FilesAdded(path), addedFails);
      if event.Throw? {
        return Throw(IOError);
      }
      var _ := monitorsManager.AddMonitor(path, MonitorRestartsNumber, constructs);
      r := Return(());
    }

    /** `remove(path)`: after the check, the removed event; a failing event
        becomes an `IOException` and touches no monitor, otherwise the
        monitor registered for exactly this path is removed, and a failing
        stop is an `IOException` too. */
    method Remove(path: Path, removedFails: bool, stopThrows: bool) returns (r: Outcome<()>)
      requires Valid()
      modifies indexEventsHandler, monitorsManager
      ensures Valid()
      ensures old(CheckState()).Throw? ==>
                && r == old(CheckState())
                && indexEventsHandler.received == old(indexEventsHandler.received)
                && monitorsManager.Abs() == old(monitorsManager.Abs())
      ensures old(CheckState()).Return? ==>
                indexEventsHandler.received == old(indexEventsHandler.received) + [FilesRemoved(path)]
      ensures old(CheckState()).Return? && removedFails ==>
                r == Throw(IOError) && monitorsManager.Abs() == old(monitorsManager.Abs())
      ensures old(CheckState()).Return? && !removedFails ==>
                var (m', removed) := MonitorRegistry.RemoveMonitor(old(monitorsManager.Abs()), path, stopThrows);
                && monitorsManager.Abs() == m'
                && r == (if removed.Throw? then Throw(IOError) else Return(()))
    {
      var check := CheckState();
      if check.Throw? {
        return Throw(check.failure);
      }
      var event := indexEventsHandler.Handle(FilesRemoved(path), removedFails);
      if event.Throw? {
        return Throw(IOError);
      }
      var removed := monitorsManager.RemoveMonitor(path, stopThrows);
      if removed.Throw? {
        return Throw(IOError);
      }
      r := Return(());
    }

    /** `containsFile(path)`: after the check, the index's answer. */
    method ContainsFile(path: Path) returns (r: Outcome<bool>)
      requires Valid()
      ensures CheckState().Throw? ==> r == Throw(CheckState().failure)
      ensures CheckState().Return? ==> r == Return(Contains(fileIndex.Abs(), path))
    {
      var check := CheckState();
      if check.Throw? {
        return Throw(check.failure);
      }
      var contained := fileIndex.ContainsFile(path);
      r := Return(contained);
    }

    /** `close()`: stop every monitor, then close; there is no check, and a
        closed indexer stays closed. */
    method Close()
      requires Valid()
      modifies this, monitorsManager
      ensures Valid() && isClosed
      ensures monitorsManager.Abs() == StopAll(old(monitorsManager.Abs()))
      ensures CheckState() == Throw(IndexClosed)
    {
      StopAllOutcome(monitorsManager.Abs());
      monitorsManager.StopAllMonitors();
      isClosed := true;
    }
  }
}
