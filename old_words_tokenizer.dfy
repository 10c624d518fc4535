/** `src/main/indexer/tokenizer/WordsTokenizer.java`: the older tokenizer,
    whose words are the pieces between spaces only, so a `'\n'` stays
    inside its word. It has no fields: each word is built in a local string,
    and the end of input is the empty literal left unchanged. */
module OldWordsTokenizers {
  import opened JavaTypes
  import opened WordSplitting

  const Separators: set<JChar> := {Space}

  /** `tokenize(reader)`: every word of the rest of the input, in order. */
  method Tokenize(reader: CharReader) returns (tokens: seq<JString>)
    requires reader.Valid()
    modifies reader
    ensures reader.Valid() && reader.pos == |reader.input|
    ensures tokens == Words(reader.input[old(reader.pos)..], Separators)
  {
    ghost var input := reader.input;
    ghost var goal := Words(input[reader.pos..], Separators);
    tokens := [];
    var word := ReadWord(reader);
    while word.Some?
      invariant reader.Valid() && reader.input == input
      invariant word.None? ==> reader.pos == |input|
      invariant goal == tokens + Listed(word) + Words(input[reader.pos..], Separators)
      decreases |reader.input| - reader.pos + (if word.Some? then 1 else 0)
    {
      ghost var before, read := tokens, word.value;
      tokens := tokens + [word.value];
      word := ReadWord(reader);
      Regroup(before, read, Listed(word), Words(input[reader.pos..], Separators));
    }
    assert input[reader.pos..] == [];
  }

  /** `readWord(reader)`: the characters up to the next space or the end,
      the space consumed; nothing at the very end. */
  method ReadWord(reader: CharReader) returns (word: Option<JString>)
    requires reader.Valid()
    modifies reader
    ensures reader.Valid()
    ensures word.None? <==> old(reader.pos) == |reader.input|
    ensures word.Some? ==> old(reader.pos) < reader.pos && NoSeparator(word.value, Separators)
    ensures Listed(word) + Words(reader.input[reader.pos..], Separators)
            == Words(reader.input[old(reader.pos)..], Separators)
  {
    ghost var start := reader.pos;
    var wordString: JString := [];
    var data := reader.Read();
    while data != Space as int && data != -1
      invariant reader.Valid() && start <= reader.pos
      invariant data == -1 ==> reader.pos == |reader.input| && wordString == reader.input[start..]
      invariant data != -1 ==>
                  && start < reader.pos && data == reader.input[reader.pos - 1] as int
                  && wordString == reader.input[start..reader.pos - 1]
      invariant NoSeparator(wordString, Separators)
      decreases |reader.input| - reader.pos, if data == -1 then 0 else 1
    {
      wordString := wordString + [data as JChar];
      data := reader.Read();
    }
    ReadWordMeaning(reader.input, Separators, start, reader.pos, wordString, data == -1);
    if data == -1 && wordString == [] {
      return None;
    }
    word := Some(wordString);
  }
}
