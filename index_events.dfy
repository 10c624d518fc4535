/** The `IndexEventsHandler` interface
    (`src/main/java/indexer/handler/IndexEventsHandler.java`) as its callers
    see it. The callers in this model (the lifecycle handler and the façades)
    know the interface only, so its implementation is a recorder: it keeps
    every event it receives, in order, and whether a call throws
    `NotHandledEventException` is the `fails` argument of that call. */
module IndexEvents {
  import opened JavaTypes
  import opened PathUtils

  /** One call of the interface. */
  datatype Event = FilesAdded(path: Path) | FilesRemoved(path: Path) | FilesModified(path: Path)

  class EventsHandler {
    /** The events received so far, oldest first. */
    var received: seq<Event>

    constructor ()
      ensures received == []
    {
      received := [];
    }

    /** Deliver one event; a failing delivery is still received. */
    method Handle(e: Event, fails: bool) returns (r: Outcome<()>)
      modifies this
      ensures received == old(received) + [e]
      ensures r == if fails then Throw(NotHandledEvent) else Return(())
    {
      received := received + [e];
      r := if fails then Throw(NotHandledEvent) else Return(());
    }
  }
}
