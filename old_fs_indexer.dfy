/** `src/indexer/FSIndexer.java`: the older façade, over the eager index
    and the old monitors manager. It builds its own collaborators, and it
    registers a monitor for the directory of the added or removed path: a
    path that is not a directory is replaced by its parent. Its read-write
    lock only serialises the calls, so the calls here are sequential. */
module OldIndexer {
  import opened JavaTypes
  import opened PathUtils
  import opened Files
  import opened EagerIndexSpec
  import opened EagerIndex
  import opened IndexEvents
  import opened IndexMonitorHandlers
  import opened MonitorRegistry
  import opened OldMonitorsManager
  import Indexer

  /** The path a monitor is registered for: the path itself when it is a
      directory, else its parent (a file is never the root, so it has one). */
  function MonitoredPath(path: Path, isDirectory: bool): (r: Path)
    requires isDirectory || |path| > 0
    ensures isDirectory ==> r == path
    ensures !isDirectory ==> FirstPathIsParent(r, path) && |r| == |path| - 1
  {
    if isDirectory then path else Parent(path)
  }

  class FSIndexer {
    const fileIndex: HashFileIndex
    const indexUpdater: EventsHandler
    const monitorsManager: FSMonitorsManager
    const indexMonitorHandler: IndexMonitorHandler
    var isClosed: bool

    ghost predicate Valid()
      reads this, fileIndex, monitorsManager
    {
      fileIndex.Valid() && monitorsManager.Valid()
    }

    /** A new indexer: an empty index, an events handler and a lifecycle
        handler over it, and a manager without monitors. */
    constructor ()
      ensures Valid() && !isClosed
      ensures fileIndex.Abs() == Empty() && Clean(fileIndex.Abs())
      ensures monitorsManager.Abs() == NewManager()
      ensures indexMonitorHandler.indexEventsHandler == indexUpdater && !indexMonitorHandler.monitorIsDown
      ensures indexUpdater.received == []
      ensures fresh(fileIndex) && fresh(indexUpdater) && fresh(monitorsManager) && fresh(indexMonitorHandler)
    {
      fileIndex := new HashFileIndex();
      var updater := new EventsHandler();
      indexUpdater := updater;
      indexMonitorHandler := new IndexMonitorHandler(updater);
      monitorsManager := new FSMonitorsManager();
      isClosed := false;
    }

    /** `checkState()`: closed first, then a monitor down or a runner error. */
    function CheckState(): (r: Outcome<()>)
      reads this, indexMonitorHandler, monitorsManager
      ensures r.Return? <==> !isClosed && !indexMonitorHandler.monitorIsDown && !monitorsManager.errorOccurred
      ensures r.Throw? ==> r.failure == if isClosed then IndexClosed else InconsistentIndex
    {
      Indexer.StateCheck(isClosed, indexMonitorHandler.IsSomeMonitorDown(), monitorsManager.IsErrorOccurred())
    }

    /** `search(token)`: after the check, the index's answer. */
    method Search(tokenToFind: Token) returns (r: Outcome<seq<Option<Path>>>, order: seq<FileId>)
      requires Valid()
      ensures CheckState().Throw? ==> r == Throw(CheckState().failure)
      ensures CheckState().Return? ==>
                r.Return? && Answers(fileIndex.Abs(), tokenToFind, order, r.value)
    {
      order := [];
      var check := CheckState();
      if check.Throw? {
        return Throw(check.failure), order;
      }
      var found;
      found, order := fileIndex.Search(tokenToFind);
      r := Return(found);
    }

    /** `add(path)`: after the check, the added event; a failing event is an
        `IOException` and registers no monitor, otherwise a monitor is added
        for the path's directory. */
    method Add(path: Path, isDirectory: bool, addedFails: bool, constructs: bool) returns (r: Outcome<()>)
      requires Valid()
      requires isDirectory || |path| > 0
      modifies indexUpdater, monitorsManager
      ensures Valid()
      ensures old(CheckState()).Throw? ==>
                && r == old(CheckState())
                && indexUpdater.received == old(indexUpdater.received)
                && monitorsManager.Abs() == old(monitorsManager.Abs())
      ensures old(CheckState()).Return? ==>
                indexUpdater.received == old(indexUpdater.received) + [FilesAdded(path)]
      ensures old(CheckState()).Return? && addedFails ==>
                r == Throw(IOError) && monitorsManager.Abs() == old(monitorsManager.Abs())
      ensures old(CheckState()).Return? && !addedFails ==>
                && r == Return(())
                && monitorsManager.Abs()
                   == MonitorRegistry.AddMonitor(old(monitorsManager.Abs()), MonitoredPath(path, isDirectory),
                                                 Indexer.MonitorRestartsNumber, constructs).0
    {
      var check := CheckState();
      if check.Throw? {
        return Throw(check.failure);
      }
      var event := indexUpdater.Handle(FilesAdded(path), addedFails);
      if event.Throw? {
        return Throw(IOError);
      }
      var target := path;
      if !isDirectory {
        target := Parent(target);
      }
      var _ := monitorsManager.AddMonitor(target, Indexer.MonitorRestartsNumber, constructs);
      r := Return(());
    }

    /** `remove(path)`: after the check, the removed event; a failing event
        is an `IOException` and touches no monitor, otherwise the monitor
        registered for exactly the path's directory is dropped. */
    method Remove(path: Path, isDirectory: bool, removedFails: bool) returns (r: Outcome<()>)
      requires Valid()
      requires isDirectory || |path| > 0
      modifies indexUpdater, monitorsManager
      ensures Valid()
      ensures old(CheckState()).Throw? ==>
                && r == old(CheckState())
                && indexUpdater.received == old(indexUpdater.received)
                && monitorsManager.Abs() == old(monitorsManager.Abs())
      ensures old(CheckState()).Return? ==>
                indexUpdater.received == old(indexUpdater.received) + [FilesRemoved(path)]
      ensures old(CheckState()).Return? && removedFails ==>
                r == Throw(IOError) && monitorsManager.Abs() == old(monitorsManager.Abs())
      ensures old(CheckState()).Return? && !removedFails ==>
                && r == Return(())
                && monitorsManager.Abs() == RemoveUnstopped(old(monitorsManager.Abs()), MonitoredPath(path, isDirectory)).0
    {
      var check := CheckState();
      if check.Throw? {
        return Throw(check.failure);
      }
      var event := indexUpdater.Handle(FilesRemoved(path), removedFails);
      if event.Throw? {
        return Throw(IOError);
      }
      var target := path;
      if !isDirectory {
        target := Parent(target);
      }
      var _ := monitorsManager.RemoveMonitor(target);
      r := Return(());
    }

    /** `containsFile(path)`: after the check, the index's answer. */
    method ContainsFile(path: Path) returns (r: Outcome<bool>)
      requires Valid()
      ensures CheckState().Throw? ==> r == Throw(CheckState().failure)
      ensures CheckState().Return? ==> r == Return(Contains(fileIndex.Abs(), path))
    {
      var check := CheckState();
      if check.Throw? {
        return Throw(check.failure);
      }
      r := Return(fileIndex.ContainsFile(path));
    }

    /** `close()`: stop every monitor, then close, without a check. */
    method Close()
      requires Valid()
      modifies this, monitorsManager
      ensures Valid() && isClosed
      ensures monitorsManager.Abs() == StopAll(old(monitorsManager.Abs()))
      ensures CheckState() == Throw(IndexClosed)
    {
      StopAllOutcome(monitorsManager.Abs());
      monitorsManager.StopAllMonitors();
      isClosed := true;
    }
  }
}
