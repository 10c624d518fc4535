/** What the indexes learn from the file system. Opening and tokenizing a file
    (`new File(path).canRead()`, `readTokens`) is not modelled; its outcome is
    an input to the operations that read files. */
module Files {
  import opened JavaTypes
  import opened PathUtils

  /** A word as the tokenizer produces it. */
  type Token = JString

  /** What reading one file yields: `canRead()` false, a tokenizer failure
      (`readTokens` returning null), or the tokens in file order. */
  datatype FileRead = Unreadable | ReadFailed | Read(tokens: seq<Token>)

  /** The reading oracle for several files; a file it does not know is unreadable. */
  type Disk = map<Path, FileRead>

  function ReadOf(disk: Disk, p: Path): FileRead {
    if p in disk then disk[p] else Unreadable
  }

  /** `readTokens(path)`: the tokens, or `null` (here `None`) when the file
      cannot be opened or the tokenizer fails. */
  function TokensOf(read: FileRead): Option<seq<Token>> {
    if read.Read? then Some(read.tokens) else None
  }

  /** The distinct tokens of a file. */
  function Distinct(tokens: seq<Token>): set<Token> {
    set x | x in tokens
  }
}
