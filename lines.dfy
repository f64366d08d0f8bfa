/**
  The byte-level line structure of the scrollback history.

  Every history entry is one rendered terminal row followed by the two-byte
  terminator CR LF. Eviction does not keep a line index: it scans the stored
  bytes from the oldest one and stops right after the first CR LF. This module
  defines that scan as a function on byte sequences, what a "whole line" is,
  and how many lines a byte sequence holds when it is consumed the way
  eviction consumes it.
*/
module Lines {

  newtype byte = x: int | 0 <= x < 256

  const CR: byte := 13
  const LF: byte := 10

  /** A CR LF terminator ends exactly at offset k of s (k is the offset just past the LF). */
  predicate EndsLineAt(s: seq<byte>, k: int)
  {
    2 <= k <= |s| && s[k - 2] == CR && s[k - 1] == LF
  }

  /** The offset just past the first CR LF that ends at or after offset k, or |s| if there is none. */
  function LineEndFrom(s: seq<byte>, k: nat): (r: nat)
    requires k <= |s|
    ensures k <= r <= |s|
    ensures r == |s| || EndsLineAt(s, r)
    ensures forall j :: k <= j < r ==> !EndsLineAt(s, j)
    decreases |s| - k
  {
    if k == |s| || EndsLineAt(s, k) then k else LineEndFrom(s, k + 1)
  }

  /**
    How many bytes one eviction removes from the front of s: everything up to
    and including the first CR LF, or all of s when it holds no CR LF.
  */
  function FirstLineEnd(s: seq<byte>): (r: nat)
    ensures r <= |s|
    ensures s != [] ==> 1 <= r
    ensures r == |s| || EndsLineAt(s, r)
    ensures forall j :: 0 <= j < r ==> !EndsLineAt(s, j)
  {
    if s == [] then 0 else LineEndFrom(s, 1)
  }

  /** The scan stops at the first terminator and nowhere else. */
  lemma FirstLineEndUnique(s: seq<byte>, k: nat)
    requires EndsLineAt(s, k)
    requires forall j :: 0 <= j < k ==> !EndsLineAt(s, j)
    ensures FirstLineEnd(s) == k
  {
    var r := FirstLineEnd(s);
    assert r < k ==> EndsLineAt(s, r);
  }

  /** One history entry: it ends with CR LF and holds no earlier CR LF. */
  predicate IsLine(b: seq<byte>)
  {
    EndsLineAt(b, |b|) && forall j :: 0 <= j < |b| ==> !EndsLineAt(b, j)
  }

  /** A rendered row holds neither CR nor LF. */
  predicate NoLineBreaks(line: seq<byte>)
  {
    forall i :: 0 <= i < |line| ==> line[i] != CR && line[i] != LF
  }

  /** The bytes the scroll handler appends for one rendered row. */
  function Terminated(line: seq<byte>): (b: seq<byte>)
    ensures |b| == |line| + 2
    ensures b[..|line|] == line && b[|line|..] == [CR, LF]
    ensures NoLineBreaks(line) ==> IsLine(b)
  {
    line + [CR, LF]
  }

  /** s is a concatenation of whole CR LF-terminated lines, as eviction splits it. */
  predicate WholeLines(s: seq<byte>)
    decreases |s|
  {
    s == [] || (EndsLineAt(s, FirstLineEnd(s)) && WholeLines(s[FirstLineEnd(s)..]))
  }

  /** The number of evictions that empty s: its number of lines, a trailing partial line counting as one. */
  function LineCount(s: seq<byte>): nat
    decreases |s|
  {
    if s == [] then 0 else 1 + LineCount(s[FirstLineEnd(s)..])
  }

  /** A byte sequence that is nonempty holds at least one line, and no more lines than bytes. */
  lemma {:induction false} LineCountBounds(s: seq<byte>)
    ensures (LineCount(s) == 0) == (s == [])
    ensures LineCount(s) <= |s|
    decreases |s|
  {
    if s != [] {
      LineCountBounds(s[FirstLineEnd(s)..]);
    }
  }

  /** Appending after whole lines does not move the end of the first line. */
  lemma FirstLineEndConcat(s: seq<byte>, t: seq<byte>)
    requires s != [] && EndsLineAt(s, FirstLineEnd(s))
    ensures FirstLineEnd(s + t) == FirstLineEnd(s)
  {
    var k := FirstLineEnd(s);
    assert EndsLineAt(s + t, k);
    forall j | 0 <= j < k
      ensures !EndsLineAt(s + t, j)
    {
      assert !EndsLineAt(s, j);
    }
    FirstLineEndUnique(s + t, k);
  }

  /** Lines are counted independently on each side of a line boundary. */
  lemma {:induction false} LineCountConcat(s: seq<byte>, t: seq<byte>)
    requires WholeLines(s)
    ensures LineCount(s + t) == LineCount(s) + LineCount(t)
    ensures WholeLines(t) ==> WholeLines(s + t)
    decreases |s|
  {
    if s == [] {
      assert s + t == t;
    } else {
      var k := FirstLineEnd(s);
      FirstLineEndConcat(s, t);
      assert (s + t)[k..] == s[k..] + t;
      LineCountConcat(s[k..], t);
    }
  }

  /** A single history entry is one whole line. */
  lemma LineIsOneLine(b: seq<byte>)
    requires IsLine(b)
    ensures WholeLines(b) && LineCount(b) == 1
  {
    FirstLineEndUnique(b, |b|);
    assert b[|b|..] == [];
  }
}
