/** What both `WordsTokenizer` variants compute: the input split at every
    separator, the last piece dropped when it is empty. The main tokenizer
    (`src/main/java/indexer/tokenizer/WordsTokenizer.java`) separates at
    `' '` and `'\n'`, the old one (`src/main/indexer/tokenizer/WordsTokenizer.java`)
    at `' '` only. Also the character stream both read from. */
module WordSplitting {
  import opened JavaTypes

  const Space: JChar := 32
  const NewLine: JChar := 10

  /** The pieces of `s` between separators, in order: empty pieces included,
      one piece more than there are separators. */
  function Split(s: JString, seps: set<JChar>): (r: seq<JString>)
    ensures |r| >= 1
    decreases |s|
  {
    if s == [] then [[]]
    else
      var rest := Split(s[1..], seps);
      if s[0] in seps then [[]] + rest
      else [[s[0]] + rest[0]] + rest[1..]
  }

  /** The pieces without the last one when it is empty. */
  function DropEmptyLast(parts: seq<JString>): seq<JString>
    requires |parts| >= 1
  {
    if parts[|parts| - 1] == [] then parts[..|parts| - 1] else parts
  }

  /** The words a tokenizer returns for `s`. */
  function Words(s: JString, seps: set<JChar>): seq<JString> {
    DropEmptyLast(Split(s, seps))
  }

  /** A word read, as a list of at most one word. */
  function Listed(word: Option<JString>): seq<JString> {
    if word.Some? then [word.value] else []
  }

  /** Moving a word read onto the list of words found. */
  lemma Regroup(found: seq<JString>, w: JString, next: seq<JString>, rest: seq<JString>)
    ensures found + Listed(Some(w)) + (next + rest) == (found + [w]) + next + rest
  {
  }

  /** The number of separators in `s`. */
  function SeparatorCount(s: JString, seps: set<JChar>): nat
    decreases |s|
  {
    if s == [] then 0 else (if s[0] in seps then 1 else 0) + SeparatorCount(s[1..], seps)
  }

  /** `s` with every separator written as a space. */
  function Replace(s: JString, seps: set<JChar>): (r: JString)
    ensures |r| == |s|
    ensures forall i :: 0 <= i < |s| ==> r[i] == if s[i] in seps then Space else s[i]
  {
    seq(|s|, i requires 0 <= i < |s| => if s[i] in seps then Space else s[i])
  }

  /** The words joined by single spaces. */
  function Join(words: seq<JString>): JString
    decreases |words|
  {
    if words == [] then []
    else if |words| == 1 then words[0]
    else words[0] + [Space] + Join(words[1..])
  }

  predicate NoSeparator(w: JString, seps: set<JChar>) {
    forall j :: 0 <= j < |w| ==> w[j] !in seps
  }

  // ================================================================ lemmas

  /** No piece holds a separator, and there is one piece per separator plus one. */
  lemma {:induction false} SplitPieces(s: JString, seps: set<JChar>)
    ensures forall i :: 0 <= i < |Split(s, seps)| ==> NoSeparator(Split(s, seps)[i], seps)
    ensures |Split(s, seps)| == SeparatorCount(s, seps) + 1
    decreases |s|
  {
    if s != [] {
      SplitPieces(s[1..], seps);
      var rest := Split(s[1..], seps);
      var r := Split(s, seps);
      if s[0] !in seps {
        assert NoSeparator([s[0]] + rest[0], seps);
        forall i | 0 <= i < |r|
          ensures NoSeparator(r[i], seps)
        {
          if i > 0 {
            assert r[i] == rest[i];
          }
        }
      } else {
        forall i | 0 <= i < |r|
          ensures NoSeparator(r[i], seps)
        {
          if i > 0 {
            assert r[i] == rest[i - 1];
          }
        }
      }
    }
  }

  /** No word holds a separator. */
  lemma WordsHaveNoSeparator(s: JString, seps: set<JChar>)
    ensures forall i :: 0 <= i < |Words(s, seps)| ==> NoSeparator(Words(s, seps)[i], seps)
  {
    SplitPieces(s, seps);
  }

  /** Text without a separator is a single piece. */
  lemma {:induction false} SplitNoSeparator(s: JString, seps: set<JChar>)
    requires NoSeparator(s, seps)
    ensures Split(s, seps) == [s]
    decreases |s|
  {
    if s != [] {
      SplitNoSeparator(s[1..], seps);
      assert [s[0]] + s[1..] == s;
    }
  }

  /** Text whose first separator is at `k` splits into the text before it
      and the pieces of the text after it. */
  lemma {:induction false} SplitAtFirst(s: JString, seps: set<JChar>, k: int)
    requires 0 <= k < |s| && s[k] in seps && NoSeparator(s[..k], seps)
    ensures Split(s, seps) == [s[..k]] + Split(s[k + 1..], seps)
    decreases k
  {
    if k > 0 {
      assert s[0] == s[..k][0];
      assert s[1..][..k - 1] == s[1..k];
      SplitAtFirst(s[1..], seps, k - 1);
      assert s[1..][k..] == s[k + 1..];
      assert [s[0]] + s[1..k] == s[..k];
    }
  }

  /** The same two facts about the words, which the tokenizer's loop uses. */
  lemma WordsNoSeparator(s: JString, seps: set<JChar>)
    requires NoSeparator(s, seps)
    ensures Words(s, seps) == if s == [] then [] else [s]
  {
    SplitNoSeparator(s, seps);
  }

  lemma WordsAtFirst(s: JString, seps: set<JChar>, k: int)
    requires 0 <= k < |s| && s[k] in seps && NoSeparator(s[..k], seps)
    ensures Words(s, seps) == [s[..k]] + Words(s[k + 1..], seps)
  {
    SplitAtFirst(s, seps, k);
    DropEmptyLastCons(s[..k], Split(s[k + 1..], seps));
  }

  /** A word followed by a separator comes first among the words. */
  lemma WordsCons(w: JString, sep: JChar, rest: JString, seps: set<JChar>)
    requires NoSeparator(w, seps) && sep in seps
    ensures Words(w + [sep] + rest, seps) == [w] + Words(rest, seps)
  {
    var s := w + [sep] + rest;
    assert s[..|w|] == w && s[|w|] == sep && s[|w| + 1..] == rest;
    WordsAtFirst(s, seps, |w|);
  }

  lemma DropEmptyLastCons(a: JString, rest: seq<JString>)
    requires |rest| >= 1
    ensures DropEmptyLast([a] + rest) == [a] + DropEmptyLast(rest)
  {
    if rest[|rest| - 1] == [] {
      assert ([a] + rest)[..|rest|] == [a] + rest[..|rest| - 1];
    }
  }

  /** How one word read from `input[start..]` relates to the words of the
      rest: it was ended by the end of the input, or by the separator just
      before `pos`. */
  lemma ReadWordMeaning(input: JString, seps: set<JChar>, start: int, pos: int, w: JString, atEnd: bool)
    requires 0 <= start <= pos <= |input| && NoSeparator(w, seps)
    requires atEnd ==> pos == |input| && w == input[start..]
    requires !atEnd ==> start < pos && input[pos - 1] in seps && w == input[start..pos - 1]
    ensures atEnd && w == [] ==> Words(input[pos..], seps) == Words(input[start..], seps)
    ensures !(atEnd && w == []) ==> [w] + Words(input[pos..], seps) == Words(input[start..], seps)
  {
    var rest := input[start..];
    if atEnd {
      WordsNoSeparator(rest, seps);
      assert input[pos..] == [];
    } else {
      var k := pos - 1 - start;
      assert rest[..k] == w && rest[k + 1..] == input[pos..];
      WordsAtFirst(rest, seps, k);
    }
  }

  /** The last piece is empty exactly when the text is empty or ends with a separator. */
  lemma {:induction false} LastPiece(s: JString, seps: set<JChar>)
    ensures var r := Split(s, seps);
            r[|r| - 1] == [] <==> s == [] || s[|s| - 1] in seps
    decreases |s|
  {
    if s != [] {
      var t := s[1..];
      LastPiece(t, seps);
      var rest := Split(t, seps);
      if t == [] {
        assert rest == [[]];
      } else {
        assert s[|s| - 1] == t[|t| - 1];
        if s[0] !in seps && |rest| == 1 {
          assert Split(s, seps) == [[s[0]] + rest[0]];
        }
      }
    }
  }

  lemma {:induction false} JoinCons(words: seq<JString>)
    requires |words| >= 2
    ensures Join(words) == words[0] + [Space] + Join(words[1..])
  {
  }

  /** Joining one more word. */
  lemma {:induction false} JoinSnoc(words: seq<JString>, w: JString)
    ensures Join(words + [w]) == if words == [] then w else Join(words) + [Space] + w
    decreases |words|
  {
    if |words| == 1 {
      assert (words + [w])[1..] == [w];
    } else if |words| > 1 {
      assert (words + [w])[1..] == words[1..] + [w];
      JoinSnoc(words[1..], w);
    }
  }

  /** The pieces joined by spaces give back the text, each separator
      written as a space. */
  lemma {:induction false} JoinSplit(s: JString, seps: set<JChar>)
    ensures Join(Split(s, seps)) == Replace(s, seps)
    decreases |s|
  {
    if s != [] {
      var rest := Split(s[1..], seps);
      JoinSplit(s[1..], seps);
      assert Replace(s, seps) == [Replace(s, seps)[0]] + Replace(s[1..], seps);
      if s[0] in seps {
        assert Join([[]] + rest) == [] + [Space] + Join(rest);
      } else if |rest| == 1 {
        assert Join(rest) == rest[0];
      } else {
        JoinCons(rest);
        assert Split(s, seps)[1..] == rest[1..];
      }
    }
  }

  /** The words joined by spaces give back the text with every separator
      written as a space, less one trailing separator. */
  lemma WordsJoin(s: JString, seps: set<JChar>)
    ensures Join(Words(s, seps)) ==
              if s != [] && s[|s| - 1] in seps then Replace(s, seps)[..|s| - 1] else Replace(s, seps)
  {
    var parts := Split(s, seps);
    JoinSplit(s, seps);
    LastPiece(s, seps);
    SplitPieces(s, seps);
    if s != [] && s[|s| - 1] in seps {
      assert SeparatorCount(s, seps) > 0 by {
        SeparatorsAtEnd(s, seps);
      }
      var init := parts[..|parts| - 1];
      assert parts == init + [[]];
      JoinSnoc(init, []);
      assert Replace(s, seps) == Replace(s, seps)[..|s| - 1] + [Space];
    }
  }

  lemma {:induction false} SeparatorsAtEnd(s: JString, seps: set<JChar>)
    requires s != [] && s[|s| - 1] in seps
    ensures SeparatorCount(s, seps) > 0
    decreases |s|
  {
    if |s| > 1 && s[0] !in seps {
      SeparatorsAtEnd(s[1..], seps);
    }
  }

  // ============================================================ the reader

  /** A `java.io.Reader` over a text already in memory: `read()` yields the
      next character, then `-1` for ever. */
  class CharReader {
    const input: JString
    var pos: nat

    ghost predicate Valid()
      reads this
    {
      pos <= |input|
    }

    constructor (input: JString)
      ensures Valid() && this.input == input && pos == 0
    {
      this.input := input;
      pos := 0;
    }

    method Read() returns (c: int)
      requires Valid()
      modifies this
      ensures Valid()
      ensures old(pos) < |input| ==> c == input[old(pos)] as int && pos == old(pos) + 1
      ensures old(pos) == |input| ==> c == -1 && pos == old(pos)
    {
      if pos < |input| {
        c := input[pos] as int;
        pos := pos + 1;
      } else {
        c := -1;
      }
    }
  }
}
