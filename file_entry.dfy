/** `indexer.utils.FileEntry`: one indexed file of the lazy index, with its
    tombstone flag and the number of posting lists that still hold its id. */
module FileEntries {
  import opened PathUtils

  /** The value an entry holds at one moment. */
  datatype EntryView = EntryView(path: Path, removed: bool, count: int)

  class FileEntry {
    const filePath: Path
    var removed: bool
    var tokensCounter: int

    /** A new entry is live and its counter is the number it was given. */
    constructor (filePath: Path, wordsNumber: int)
      ensures this.filePath == filePath
      ensures !removed && tokensCounter == wordsNumber
    {
      this.filePath := filePath;
      this.removed := false;
      this.tokensCounter := wordsNumber;
    }

    function IsRemoved(): bool
      reads this
    {
      removed
    }

    function GetTokensCounter(): int
      reads this
    {
      tokensCounter
    }

    function GetFilePath(): Path {
      filePath
    }

    /** The entry's current value. */
    ghost function View(): EntryView
      reads this
    {
      EntryView(filePath, removed, tokensCounter)
    }

    /** Tombstones the entry; nothing ever clears the flag again. */
    method SetRemoved()
      modifies this
      ensures removed && tokensCounter == old(tokensCounter)
      ensures View() == old(View()).(removed := true)
    {
      removed := true;
    }

    /** Lowers the counter by exactly one; there is no lower bound. */
    method DecreaseTokensCounter()
      modifies this
      ensures removed == old(removed) && tokensCounter == old(tokensCounter) - 1
      ensures View() == old(View()).(count := old(tokensCounter) - 1)
    {
      tokensCounter := tokensCounter - 1;
    }
  }
}
