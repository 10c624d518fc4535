/** `src/main/java/indexer/encoding/automaton/ControlsCounter.java`: counts
    the code points of a UTF-16 text fed in chunks, and how many of them
    are control characters that are not whitespace. A high surrogate ending
    a chunk waits for the first unit of the next one. The functions here say
    what the counts are for the whole text fed so far; the class is proved
    to follow them chunk by chunk. */
module ControlsCounters {
  import opened JavaTypes
  import opened CharArrays

  /** `Character.codePointAt` on the pair `fst`, `snd`: the supplementary
      code point of a surrogate pair (section 2.2 of RFC 2781), otherwise
      `fst` on its own. */
  function CodePointForPair(fst: JChar, snd: JChar): (r: int)
    ensures 0 <= r <= 0x10_FFFF
    ensures 0x1_0000 <= r <==> IsHighSurrogate(fst) && IsLowSurrogate(snd)
    ensures r < 0x1_0000 ==> r == fst as int
  {
    if IsHighSurrogate(fst) && IsLowSurrogate(snd) then
      0x1_0000 + (fst as int - 0xD800) * 0x400 + (snd as int - 0xDC00)
    else fst as int
  }

  /** `Character.isISOControl`. */
  predicate IsISOControl(cp: int) {
    0 <= cp <= 0x1F || 0x7F <= cp <= 0x9F
  }

  /** The ISO controls `Character.isWhitespace` accepts: tab, line feed,
      vertical tab, form feed, carriage return and the four information
      separators. No other whitespace character is an ISO control. */
  predicate IsControlWhitespace(cp: int) {
    0x09 <= cp <= 0x0D || 0x1C <= cp <= 0x1F
  }

  /** The test of `count`: a control that is not whitespace. */
  predicate IsCountedControl(cp: int) {
    IsISOControl(cp) && !IsControlWhitespace(cp)
  }

  /** A text read as `feed` reads it: each unit that is not a high surrogate
      is a code point; a high surrogate takes the next unit with it, whatever
      it is; a high surrogate at the very end is left pending. */
  datatype Decoded = Decoded(codePoints: seq<int>, pending: Option<JChar>)

  function Decode(s: JString): Decoded
    decreases |s|
  {
    if s == [] then Decoded([], None)
    else if !IsHighSurrogate(s[0]) then
      var d := Decode(s[1..]);
      d.(codePoints := [s[0] as int] + d.codePoints)
    else if |s| == 1 then Decoded([], Some(s[0]))
    else
      var d := Decode(s[2..]);
      d.(codePoints := [CodePointForPair(s[0], s[1])] + d.codePoints)
  }

  /** How many of the code points `count` counts as controls. */
  function Controls(cps: seq<int>): nat
    decreases |cps|
  {
    if cps == [] then 0 else Control(cps[0]) + Controls(cps[1..])
  }

  /** One code point's share of `controlsNum`. */
  function Control(cp: int): nat {
    if IsCountedControl(cp) then 1 else 0
  }

  /** A waiting high surrogate as text. */
  function Pending(p: Option<JChar>): JString {
    if p.Some? then [p.value] else []
  }

  /** The counter's value: the waiting high surrogate (`hasPrev`, `prev`),
      `allChars` and `controlsNum`. */
  datatype Counter = Counter(pending: Option<JChar>, allChars: int, controlsNum: int)

  ghost predicate CounterInv(c: Counter) {
    && (c.pending.Some? ==> IsHighSurrogate(c.pending.value))
    && 0 <= c.controlsNum <= c.allChars
  }

  /** A counter after `reset()`. */
  function Initial(): Counter {
    Counter(None, 0, 0)
  }

  /** `feed(chunk)`: the waiting surrogate and the chunk, read as one text. */
  function Fed(c: Counter, chunk: JString): Counter {
    var d := Decode(Pending(c.pending) + chunk);
    Counter(d.pending, c.allChars + |d.codePoints|, c.controlsNum + Controls(d.codePoints))
  }

  /** The chunks fed one after the other. */
  function FedAll(c: Counter, chunks: seq<JString>): Counter
    decreases |chunks|
  {
    if chunks == [] then c else FedAll(Fed(c, chunks[0]), chunks[1..])
  }

  function Concat(chunks: seq<JString>): JString
    decreases |chunks|
  {
    if chunks == [] then [] else chunks[0] + Concat(chunks[1..])
  }

  // ================================================================ lemmas

  /** Section 2.1 of RFC 2781 encodes a supplementary code point as a
      pair; `codePointForPair` gives the code point back. */
  lemma PairRoundTrip(u: int)
    requires 0x1_0000 <= u <= 0x10_FFFF
    ensures var w1, w2 := (0xD800 + (u - 0x1_0000) / 0x400) as JChar, (0xDC00 + (u - 0x1_0000) % 0x400) as JChar;
            IsHighSurrogate(w1) && IsLowSurrogate(w2) && CodePointForPair(w1, w2) == u
  {
  }

  /** And a surrogate pair decodes to a supplementary code point whose
      encoding is that pair. */
  lemma PairDecodes(w1: JChar, w2: JChar)
    requires IsHighSurrogate(w1) && IsLowSurrogate(w2)
    ensures var u := CodePointForPair(w1, w2);
            && 0x1_0000 <= u <= 0x10_FFFF
            && (0xD800 + (u - 0x1_0000) / 0x400) == w1 as int
            && (0xDC00 + (u - 0x1_0000) % 0x400) == w2 as int
  {
  }

  /** What `count` counts as a control lies in 0x00-0x08, 0x0E-0x1B or
      0x7F-0x9F, and no code point made from a high surrogate is one. */
  lemma CountedControlRange(cp: int)
    ensures IsCountedControl(cp) <==> 0x00 <= cp <= 0x08 || 0x0E <= cp <= 0x1B || 0x7F <= cp <= 0x9F
  {
  }

  lemma PairIsNoControl(w1: JChar, w2: JChar)
    requires IsHighSurrogate(w1)
    ensures !IsCountedControl(CodePointForPair(w1, w2))
  {
  }

  lemma {:induction false} ControlsAtMostAll(cps: seq<int>)
    ensures Controls(cps) <= |cps|
    decreases |cps|
  {
    if cps != [] {
      ControlsAtMostAll(cps[1..]);
    }
  }

  lemma {:induction false} ControlsConcat(a: seq<int>, b: seq<int>)
    ensures Controls(a + b) == Controls(a) + Controls(b)
    decreases |a|
  {
    if a == [] {
      assert a + b == b;
    } else {
      assert (a + b)[0] == a[0] && (a + b)[1..] == a[1..] + b;
      ControlsConcat(a[1..], b);
    }
  }

  /** Only a final high surrogate is left pending, and each unit is in at
      most one code point. */
  lemma {:induction false} DecodeShape(s: JString)
    ensures Decode(s).pending.Some? ==> s != [] && Decode(s).pending.value == s[|s| - 1] && IsHighSurrogate(s[|s| - 1])
    ensures |Decode(s).codePoints| <= |s|
    decreases |s|
  {
    if s != [] {
      if !IsHighSurrogate(s[0]) {
        DecodeShape(s[1..]);
        assert Decode(s[1..]).pending.Some? ==> s[1..][|s[1..]| - 1] == s[|s| - 1];
      } else if |s| > 1 {
        DecodeShape(s[2..]);
        assert Decode(s[2..]).pending.Some? ==> s[2..][|s[2..]| - 1] == s[|s| - 1];
      }
    }
  }

  /** Decoding is cut-free: decoding `x + y` is decoding `x`, then decoding
      its pending surrogate followed by `y`. */
  lemma {:induction false} DecodeConcat(x: JString, y: JString)
    ensures var d := Decode(x);
            var e := Decode(Pending(d.pending) + y);
            Decode(x + y) == Decoded(d.codePoints + e.codePoints, e.pending)
    decreases |x|
  {
    if x == [] {
      assert x + y == y;
    } else if !IsHighSurrogate(x[0]) {
      assert (x + y)[1..] == x[1..] + y;
      DecodeConcat(x[1..], y);
    } else if |x| == 1 {
      assert Pending(Decode(x).pending) + y == x + y;
    } else {
      assert (x + y)[2..] == x[2..] + y;
      DecodeConcat(x[2..], y);
    }
  }

  /** A text without high surrogates has one code point per unit, the
      units themselves, and nothing pending. */
  lemma {:induction false} DecodeWithoutSurrogates(s: JString)
    requires forall i :: 0 <= i < |s| ==> !IsHighSurrogate(s[i])
    ensures Decode(s).pending == None && |Decode(s).codePoints| == |s|
    ensures forall i :: 0 <= i < |s| ==> Decode(s).codePoints[i] == s[i] as int
    decreases |s|
  {
    if s != [] {
      DecodeWithoutSurrogates(s[1..]);
    }
  }

  lemma FedPreservesInv(c: Counter, chunk: JString)
    requires CounterInv(c)
    ensures CounterInv(Fed(c, chunk))
  {
    var d := Decode(Pending(c.pending) + chunk);
    ControlsAtMostAll(d.codePoints);
    DecodeShape(Pending(c.pending) + chunk);
  }

  /** Chunk boundaries do not matter: feeding two chunks is feeding their
      concatenation. */
  lemma FedTwice(c: Counter, a: JString, b: JString)
    ensures Fed(Fed(c, a), b) == Fed(c, a + b)
  {
    var x := Pending(c.pending) + a;
    DecodeConcat(x, b);
    assert x + b == Pending(c.pending) + (a + b);
    var d := Decode(x);
    var e := Decode(Pending(d.pending) + b);
    ControlsConcat(d.codePoints, e.codePoints);
  }

  /** So after a reset, any sequence of chunks counts exactly what their
      concatenation counts. */
  lemma {:induction false} FedAllIsConcat(c: Counter, chunks: seq<JString>)
    requires CounterInv(c)
    ensures FedAll(c, chunks) == Fed(c, Concat(chunks))
    decreases |chunks|
  {
    if chunks == [] {
      var d := Decode(Pending(c.pending));
      if c.pending.Some? {
        assert Pending(c.pending) == [c.pending.value];
      }
    } else {
      FedPreservesInv(c, chunks[0]);
      FedAllIsConcat(Fed(c, chunks[0]), chunks[1..]);
      FedTwice(c, chunks[0], Concat(chunks[1..]));
    }
  }

  /** The counter after one more code point. */
  function Counted(c: Counter, cp: int): Counter {
    Counter(None, c.allChars + 1, c.controlsNum + Control(cp))
  }

  // The steps `feed` takes, each stated on `Fed`.

  /** A waiting surrogate pairs with the chunk's first unit. */
  lemma FedPendingFirst(c: Counter, text: JString)
    requires c.pending.Some? && IsHighSurrogate(c.pending.value) && |text| > 0
    ensures Fed(c, text) == Fed(Counted(c, CodePointForPair(c.pending.value, text[0])), text[1..])
  {
    var x := [c.pending.value] + text;
    assert Pending(c.pending) + text == x;
    assert x[2..] == text[1..];
    assert Pending(None) + text[1..] == text[1..];
    ControlsConcat([CodePointForPair(c.pending.value, text[0])], Decode(text[1..]).codePoints);
  }

  /** A unit that is not a high surrogate is a code point on its own. */
  lemma FedSingle(c: Counter, text: JString, i: int)
    requires c.pending.None? && 0 <= i < |text| && !IsHighSurrogate(text[i])
    ensures Fed(c, text[i..]) == Fed(Counted(c, text[i] as int), text[i + 1..])
  {
    var x := text[i..];
    assert Pending(None) + x == x && x[0] == text[i] && x[1..] == text[i + 1..];
    assert Pending(None) + text[i + 1..] == text[i + 1..];
    ControlsConcat([text[i] as int], Decode(text[i + 1..]).codePoints);
  }

  /** A high surrogate takes the next unit with it. */
  lemma FedPair(c: Counter, text: JString, i: int)
    requires c.pending.None? && 0 <= i < |text| - 1 && IsHighSurrogate(text[i])
    ensures Fed(c, text[i..]) == Fed(Counted(c, CodePointForPair(text[i], text[i + 1])), text[i + 2..])
  {
    var x := text[i..];
    assert Pending(None) + x == x && x[0] == text[i] && x[1] == text[i + 1] && x[2..] == text[i + 2..];
    assert Pending(None) + text[i + 2..] == text[i + 2..];
    ControlsConcat([CodePointForPair(text[i], text[i + 1])], Decode(text[i + 2..]).codePoints);
  }

  /** A final high surrogate waits. */
  lemma FedLast(c: Counter, text: JString)
    requires c.pending.None? && |text| > 0 && IsHighSurrogate(text[|text| - 1])
    ensures Fed(c, text[|text| - 1..]) == c.(pending := Some(text[|text| - 1]))
  {
    assert Pending(None) + text[|text| - 1..] == [text[|text| - 1]];
  }

  /** One turn of `feed`'s loop at unit `i`, nothing pending: the counter
      after it and where the next turn starts. */
  function FeedStep(c: Counter, text: JString, i: int): (Counter, int)
    requires 0 <= i < |text|
  {
    if !IsHighSurrogate(text[i]) then (Counted(c, text[i] as int), i + 1)
    else if i != |text| - 1 then (Counted(c, CodePointForPair(text[i], text[i + 1])), i + 2)
    else (c.(pending := Some(text[i])), i + 1)
  }

  /** Each turn keeps what is left to do: before a surrogate is left
      waiting, feeding the rest from there gives the same as feeding the
      rest from `i`; once one waits, the text is done. */
  lemma FeedStepKeepsGoal(c: Counter, text: JString, i: int)
    requires c.pending.None? && 0 <= i < |text|
    ensures i < FeedStep(c, text, i).1 <= |text|
    ensures FeedStep(c, text, i).0.pending.None? ==>
              Fed(FeedStep(c, text, i).0, text[FeedStep(c, text, i).1..]) == Fed(c, text[i..])
    ensures FeedStep(c, text, i).0.pending.Some? ==>
              FeedStep(c, text, i).1 == |text| && FeedStep(c, text, i).0 == Fed(c, text[i..])
  {
    if !IsHighSurrogate(text[i]) {
      FedSingle(c, text, i);
    } else if i != |text| - 1 {
      FedPair(c, text, i);
    } else {
      FedLast(c, text);
    }
  }

  /** Feeding nothing changes nothing. */
  lemma FedNothing(c: Counter)
    requires c.pending.None?
    ensures Fed(c, []) == c
  {
    assert Pending(None) + [] == [];
  }

  // ================================================================ class

  class ControlsCounter {
    var prev: JChar
    var hasPrev: bool
    var allChars: int
    var controlsNum: int

    function Abs(): Counter
      reads this
    {
      Counter(if hasPrev then Some(prev) else None, allChars, controlsNum)
    }

    ghost predicate Valid()
      reads this
    {
      CounterInv(Abs())
    }

    constructor ()
      ensures Valid() && Abs() == Initial()
    {
      prev := 0;
      hasPrev := false;
      allChars := 0;
      controlsNum := 0;
    }

    /** `feed(chars)` on a non-empty window inside its array. */
    method Feed(chars: CharArrayWrapper)
      requires Valid() && chars.InArray() && chars.GetLen() != 0
      modifies this
      ensures Valid() && Abs() == Fed(old(Abs()), chars.Content())
    {
      ghost var text := chars.Content();
      ghost var goal := Fed(Abs(), text);
      FedPreservesInv(Abs(), text);
      var i := 0;
      if hasPrev {
        FedPendingFirst(Abs(), text);
        Count(CodePointForPair(prev, chars.Get(0)));
        hasPrev := false;
        i := 1;
      }
      while i < chars.GetLen()
        invariant 0 <= i <= |text|
        invariant !hasPrev ==> Fed(Abs(), text[i..]) == goal
        invariant hasPrev ==> i == |text| && Abs() == goal
        decreases |text| - i
      {
        ghost var before, from := Abs(), i;
        i := FeedAt(chars, text, i);
        FeedStepKeepsGoal(before, text, from);
      }
      if !hasPrev {
        FedNothing(Abs());
        assert text[i..] == [];
      }
    }

    /** One turn of `feed`'s loop, at unit `i` of the window. */
    method FeedAt(chars: CharArrayWrapper, ghost text: JString, i: int) returns (next: int)
      requires chars.InArray() && text == chars.Content()
      requires 0 <= i < |text| && !hasPrev
      modifies this
      ensures (Abs(), next) == FeedStep(old(Abs()), text, i)
    {
      var c := chars.Get(i);
      if !IsHighSurrogate(c) {
        Count(c as int);
        next := i + 1;
      } else if i != chars.GetLen() - 1 {
        Count(CodePointForPair(c, chars.Get(i + 1)));
        next := i + 2;
      } else {
        hasPrev := true;
        prev := c;
        next := i + 1;
      }
    }

    /** `count(codePoint)`: one more code point, and one more control when
        it is a control that is not whitespace. */
    method Count(codePoint: int)
      modifies this
      ensures allChars == old(allChars) + 1
      ensures controlsNum == old(controlsNum) + Control(codePoint)
      ensures prev == old(prev) && hasPrev == old(hasPrev)
    {
      allChars := allChars + 1;
      if IsISOControl(codePoint) && !IsControlWhitespace(codePoint) {
        controlsNum := controlsNum + 1;
      }
    }

    /** `reset()`: nothing pending and nothing counted. */
    method Reset()
      modifies this
      ensures Valid() && Abs() == Initial()
    {
      hasPrev := false;
      allChars := 0;
      controlsNum := 0;
    }

    /** `hasPrev()`: whether a high surrogate waits for the next chunk. */
    function HasPrev(): (r: bool)
      reads this
      ensures r <==> Abs().pending.Some?
    {
      hasPrev
    }

    /** `getControlsNum()`: the counted controls, never more than the code
        points counted. */
    function GetControlsNum(): (r: int)
      reads this
      ensures r == Abs().controlsNum
      ensures Valid() ==> 0 <= r <= Abs().allChars
    {
      controlsNum
    }
  }
}
