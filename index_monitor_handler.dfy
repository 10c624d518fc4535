/** `src/main/java/indexer/fsmonitor/IndexMonitorHandler.java`: the
    lifecycle handler that refreshes the index from a monitor's directory
    when the monitor restarts, and empties it and raises a sticky flag when
    the monitor goes down. */
module IndexMonitorHandlers {
  import opened JavaTypes
  import opened PathUtils
  import opened IndexEvents

  class IndexMonitorHandler {
    const indexEventsHandler: EventsHandler
    var monitorIsDown: bool

    constructor (indexEventsHandler: EventsHandler)
      ensures this.indexEventsHandler == indexEventsHandler && !monitorIsDown
    {
      this.indexEventsHandler := indexEventsHandler;
      monitorIsDown := false;
    }

    /** `onMonitorRestart(dir)`: the removed event, then the added event, for
        `dir`; a failing removal skips the addition. The flag is untouched. */
    method OnMonitorRestart(dir: Path, removedFails: bool, addedFails: bool) returns (r: Outcome<()>)
      modifies indexEventsHandler
      ensures removedFails ==>
                r == Throw(NotHandledEvent)
                && indexEventsHandler.received == old(indexEventsHandler.received) + [FilesRemoved(dir)]
      ensures !removedFails ==>
                && r == (if addedFails then Throw(NotHandledEvent) else Return(()))
                && indexEventsHandler.received
                   == old(indexEventsHandler.received) + [FilesRemoved(dir), FilesAdded(dir)]
    {
      r := indexEventsHandler.Handle(FilesRemoved(dir), removedFails);
      if r.Throw? {
        return;
      }
      r := indexEventsHandler.Handle(FilesAdded(dir), addedFails);
    }

    /** `onMonitorDown(dir)`: the removed event for `dir`, and only once it
        is handled the flag is raised. The flag is never lowered. */
    method OnMonitorDown(dir: Path, removedFails: bool) returns (r: Outcome<()>)
      modifies this, indexEventsHandler
      ensures indexEventsHandler.received == old(indexEventsHandler.received) + [FilesRemoved(dir)]
      ensures r == if removedFails then Throw(NotHandledEvent) else Return(())
      ensures monitorIsDown == (old(monitorIsDown) || !removedFails)
    {
      r := indexEventsHandler.Handle(FilesRemoved(dir), removedFails);
      if r.Throw? {
        return;
      }
      monitorIsDown := true;
    }

    /** `isSomeMonitorDown()`: whether some monitor went down and its
        removal was handled. */
    function IsSomeMonitorDown(): (r: bool)
      reads this
      ensures r <==> monitorIsDown
    {
      monitorIsDown
    }
  }
}
