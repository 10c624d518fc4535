/** `src/main/java/indexer/encoding/automaton/CharArrayWrapper.java`: a
    window `start`, `len` over a character array it shares with its creator
    and never replaces. */
module CharArrays {
  import opened JavaTypes

  class CharArrayWrapper {
    const chars: array<JChar>
    var start: int
    var len: int

    /** A new wrapper spans the whole array. */
    constructor (chars: array<JChar>)
      ensures this.chars == chars && start == 0 && len == chars.Length
    {
      this.chars := chars;
      start := 0;
      len := chars.Length;
    }

    /** `setRange(start, len)`: only the window moves; neither the array nor
        its contents change, and any values are accepted. */
    method SetRange(start: int, len: int)
      modifies this
      ensures this.start == start && this.len == len
    {
      this.start := start;
      this.len := len;
    }

    /** `getLen()`: the window's length, the number of characters in it. */
    function GetLen(): (r: int)
      reads this, chars
      ensures InArray() ==> r == |Content()|
    {
      len
    }

    /** `get(i)`: the character `i` places into the window. Only the array
        bounds constrain `i`, not the window's length. */
    function Get(i: int): (c: JChar)
      reads this, chars
      requires 0 <= start + i < chars.Length
      ensures c == chars[start + i]
    {
      chars[start + i]
    }

    /** The window lies inside the array. */
    ghost predicate InArray()
      reads this
    {
      0 <= start && 0 <= len && start + len <= chars.Length
    }

    /** The characters in the window. */
    ghost function Content(): (s: JString)
      reads this, chars
      requires InArray()
      ensures |s| == len && forall i :: 0 <= i < len ==> s[i] == Get(i)
    {
      chars[start..start + len]
    }
  }

  /** `get` reads past the window whenever the array goes on: a window of
      length 0 at the start of a one-character array still yields that
      character. */
  method GetIgnoresLength() returns (c: JChar)
    ensures c == 7
  {
    var a := new JChar[1];
    a[0] := 7;
    var w := new CharArrayWrapper(a);
    w.SetRange(0, 0);
    c := w.Get(0);
  }
}
