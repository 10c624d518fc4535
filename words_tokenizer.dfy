/** `src/main/java/indexer/tokenizer/WordsTokenizer.java`: words are the
    pieces between `' '` and `'\n'`. The tokenizer keeps the word being read
    in a shared builder and the last character read in a field. */
module WordsTokenizers {
  import opened JavaTypes
  import opened WordSplitting
  import OldWordsTokenizers

  const Separators: set<JChar> := {Space, NewLine}

  class WordsTokenizer {
    var stringBuilder: JString
    var symbol: int

    constructor ()
      ensures stringBuilder == []
    {
      stringBuilder := [];
      symbol := 0;
    }

    /** `tokenize(reader)`: every word of the rest of the input, in order. */
    method Tokenize(reader: CharReader) returns (tokens: seq<JString>)
      requires reader.Valid() && stringBuilder == []
      modifies this, reader
      ensures reader.Valid() && reader.pos == |reader.input| && stringBuilder == []
      ensures tokens == Words(reader.input[old(reader.pos)..], Separators)
    {
      ghost var input := reader.input;
      ghost var goal := Words(input[reader.pos..], Separators);
      tokens := [];
      var word := ReadWord(reader);
      while word.Some?
        invariant reader.Valid() && stringBuilder == [] && reader.input == input
        invariant word.None? ==> reader.pos == |input|
        invariant goal == tokens + Listed(word) + Words(input[reader.pos..], Separators)
        decreases |reader.input| - reader.pos + (if word.Some? then 1 else 0)
      {
        ghost var before, read := tokens, word.value;
        tokens := tokens + [word.value];
        word := ReadWord(reader);
        Regroup(before, read, Listed(word), Words(input[reader.pos..], Separators));
      }
      assert input[reader.pos..] == [];
    }

    /** `readWord(reader)`: the characters up to the next separator or the
        end, the separator consumed; nothing at the very end. The builder
        is emptied again, so no character reaches the next word. */
    method ReadWord(reader: CharReader) returns (word: Option<JString>)
      requires reader.Valid() && stringBuilder == []
      modifies this, reader
      ensures reader.Valid() && stringBuilder == []
      ensures word.None? <==> old(reader.pos) == |reader.input|
      ensures word.Some? ==> old(reader.pos) < reader.pos && NoSeparator(word.value, Separators)
      ensures Listed(word) + Words(reader.input[reader.pos..], Separators)
              == Words(reader.input[old(reader.pos)..], Separators)
    {
      ghost var start := reader.pos;
      symbol := reader.Read();
      while symbol != Space as int && symbol != NewLine as int && symbol != -1
        invariant reader.Valid() && start <= reader.pos
        invariant symbol == -1 ==> reader.pos == |reader.input| && stringBuilder == reader.input[start..]
        invariant symbol != -1 ==>
                    && start < reader.pos && symbol == reader.input[reader.pos - 1] as int
                    && stringBuilder == reader.input[start..reader.pos - 1]
        invariant NoSeparator(stringBuilder, Separators)
        decreases |reader.input| - reader.pos, if symbol == -1 then 0 else 1
      {
        stringBuilder := stringBuilder + [symbol as JChar];
        symbol := reader.Read();
      }
      var w := stringBuilder;
      stringBuilder := [];
      ReadWordMeaning(reader.input, Separators, start, reader.pos, w, symbol == -1);
      if symbol == -1 && w == [] {
        return None;
      }
      word := Some(w);
    }
  }

  // The words of `WordsTokenizerTest`, as UTF-16 units.
  const First: JString := [70, 105, 114, 115, 116]
  const Test: JString := [116, 101, 115, 116]
  const For: JString := [102, 111, 114]
  const Tokenizer: JString := [116, 111, 107, 101, 110, 105, 122, 101, 114]

  /** Words without separators, joined by single spaces, come back. */
  lemma SpacedWords(a: JString, b: JString, c: JString, d: JString)
    requires NoSeparator(a, Separators) && NoSeparator(b, Separators)
    requires NoSeparator(c, Separators) && NoSeparator(d, Separators) && d != []
    ensures Words(a + [Space] + b + [Space] + c + [Space] + d, Separators) == [a, b, c, d]
  {
    var t3 := c + [Space] + d;
    assert Words(t3, Separators) == [c, d] by {
      WordsCons(c, Space, d, Separators);
      WordsNoSeparator(d, Separators);
    }
    var t2 := b + [Space] + t3;
    assert Words(t2, Separators) == [b, c, d] by {
      WordsCons(b, Space, t3, Separators);
    }
    var t1 := a + [Space] + t2;
    assert Words(t1, Separators) == [a, b, c, d] by {
      WordsCons(a, Space, t2, Separators);
    }
    assert a + [Space] + b + [Space] + c + [Space] + d == t1;
  }

  /** `testTokenize`: "First test for tokenizer" is the four words. */
  lemma TokenizeTest()
    ensures Words(First + [Space] + Test + [Space] + For + [Space] + Tokenizer, Separators)
            == [First, Test, For, Tokenizer]
  {
    SpacedWords(First, Test, For, Tokenizer);
  }

  /** A line break ends a word here, where the older tokenizer keeps it
      inside the word. */
  lemma NewLineSeparates()
    ensures Words(First + [NewLine] + Test, Separators) == [First, Test]
    ensures Words(First + [NewLine] + Test, OldWordsTokenizers.Separators) == [First + [NewLine] + Test]
  {
    WordsCons(First, NewLine, Test, Separators);
    WordsNoSeparator(Test, Separators);
    WordsNoSeparator(First + [NewLine] + Test, OldWordsTokenizers.Separators);
  }
}
