/**
  The scrollback history as a value: its chronological bytes and the count of
  lines that were lost (evicted or rejected) since the last drain.

  This is the specification the ring buffer in term.dfy is proved against:
  appending a line that can never fit only counts it as missed; otherwise
  whole lines are evicted from the front until the new line fits, each
  eviction counting one missed line, and the new line goes at the end.
*/
module History {
  import opened Lines

  datatype Hist = Hist(content: seq<byte>, missed: nat)

  /**
    Evicts whole lines from the front of s until `need` bytes are free in a
    store of `size` bytes. Returns what survives and how many evictions it took.
  */
  function Evict(s: seq<byte>, need: nat, size: nat): (r: (seq<byte>, nat))
    requires need <= size && |s| <= size
    ensures need <= size - |r.0| && |r.0| <= |s|
    decreases |s|
  {
    if need <= size - |s| then (s, 0)
    else
      var rest := Evict(s[FirstLineEnd(s)..], need, size);
      (rest.0, rest.1 + 1)
  }

  /** Eviction only removes bytes from the front: what survives is the newest part of s. */
  lemma {:induction false} EvictSuffix(s: seq<byte>, need: nat, size: nat)
    requires need <= size && |s| <= size
    ensures Evict(s, need, size).0 == s[|s| - |Evict(s, need, size).0|..]
    decreases |s|
  {
    if size - |s| < need {
      var k := FirstLineEnd(s);
      EvictSuffix(s[k..], need, size);
      assert s[k..][|s[k..]| - |Evict(s, need, size).0|..] == s[|s| - |Evict(s, need, size).0|..];
    }
  }

  /** The content after k evictions, each dropping the first line. */
  function DropLines(s: seq<byte>, k: nat): seq<byte>
    decreases k
  {
    if k == 0 then s else DropLines(s[FirstLineEnd(s)..], k - 1)
  }

  /**
    Eviction evicts exactly enough: what survives is the content after as
    many first-line evictions as it counts, and after any fewer the line
    still did not fit.
  */
  lemma {:induction false} EvictMinimal(s: seq<byte>, need: nat, size: nat)
    requires need <= size && |s| <= size
    ensures Evict(s, need, size).0 == DropLines(s, Evict(s, need, size).1)
    ensures forall k :: 0 <= k < Evict(s, need, size).1 ==> size - |DropLines(s, k)| < need
    decreases |s|
  {
    if size - |s| < need {
      var rest := s[FirstLineEnd(s)..];
      EvictMinimal(rest, need, size);
      forall k | 0 < k < Evict(s, need, size).1
        ensures size - |DropLines(s, k)| < need
      {
        assert DropLines(s, k) == DropLines(rest, k - 1);
      }
    }
  }

  /** When the line does not fit yet, eviction drops the first line and carries on. */
  lemma EvictStep(s: seq<byte>, need: nat, size: nat)
    requires need <= size && |s| <= size && size - |s| < need
    ensures Evict(s, need, size) == (Evict(s[FirstLineEnd(s)..], need, size).0, Evict(s[FirstLineEnd(s)..], need, size).1 + 1)
  {
  }

  /**
    Each eviction removes exactly one line: the lines that survive plus the
    evictions make up the lines there were, whole lines stay whole, and
    nothing is evicted when the line already fits.
  */
  lemma {:induction false} EvictLines(s: seq<byte>, need: nat, size: nat)
    requires need <= size && |s| <= size
    ensures (Evict(s, need, size).1 == 0) == (need <= size - |s|)
    ensures LineCount(s) == LineCount(Evict(s, need, size).0) + Evict(s, need, size).1
    ensures WholeLines(s) ==> WholeLines(Evict(s, need, size).0)
    decreases |s|
  {
    if size - |s| < need {
      EvictLines(s[FirstLineEnd(s)..], need, size);
    }
  }

  /** appendHistory on the history value, for a store of `size` bytes. */
  function Append(size: nat, h: Hist, b: seq<byte>): (r: Hist)
    requires |h.content| <= size
    ensures |r.content| <= size
  {
    if size == 0 then h
    else if |b| > size then Hist(h.content, h.missed + 1)
    else
      var e := Evict(h.content, |b|, size);
      Hist(e.0 + b, h.missed + e.1)
  }

  /**
    What one append does: nothing without a store; a line that can never fit
    is only counted; otherwise the line ends the content, preceded by the
    newest bytes of the old content, and lines are only ever lost.
  */
  lemma AppendShape(size: nat, h: Hist, b: seq<byte>)
    requires |h.content| <= size
    ensures var r := Append(size, h, b);
            h.missed <= r.missed &&
            (size == 0 ==> r == h) &&
            (size < |b| ==> r.content == h.content && r.missed == h.missed + (if size == 0 then 0 else 1)) &&
            (0 < size && |b| <= size ==>
               |b| <= |r.content| <= |h.content| + |b| && r.content[|r.content| - |b|..] == b &&
               r.content[..|r.content| - |b|] == h.content[|h.content| + |b| - |r.content|..])
  {
    if 0 < size && |b| <= size {
      var e := Evict(h.content, |b|, size);
      EvictSuffix(h.content, |b|, size);
      assert (e.0 + b)[..|e.0|] == e.0;
    }
  }

  /** A line that fits is appended after the survivors of eviction. */
  lemma AppendFits(size: nat, h: Hist, b: seq<byte>)
    requires 0 < size && |h.content| <= size && |b| <= size
    ensures Append(size, h, b).content == Evict(h.content, |b|, size).0 + b
    ensures Append(size, h, b).missed == h.missed + Evict(h.content, |b|, size).1
  {
  }

  /**
    Conservation for one append: when the stored bytes are whole lines and b is
    one line, the lines stored plus the lines missed grow by exactly one.
  */
  lemma AppendConserves(size: nat, h: Hist, b: seq<byte>)
    requires 0 < size && |h.content| <= size
    requires WholeLines(h.content) && IsLine(b)
    ensures WholeLines(Append(size, h, b).content)
    ensures LineCount(Append(size, h, b).content) + Append(size, h, b).missed == LineCount(h.content) + h.missed + 1
  {
    if |b| <= size {
      var e := Evict(h.content, |b|, size);
      EvictLines(h.content, |b|, size);
      LineIsOneLine(b);
      LineCountConcat(e.0, b);
    }
  }

  /** Appending to a drained store: the line becomes the whole content, or it is the one line missed. */
  lemma AppendToEmpty(size: nat, b: seq<byte>)
    requires 0 < size
    ensures |b| <= size ==> Append(size, Hist([], 0), b) == Hist(b, 0)
    ensures size < |b| ==> Append(size, Hist([], 0), b) == Hist([], 1)
  {
    if |b| <= size {
      assert Evict([], |b|, size) == ([], 0);
      assert [] + b == b;
    }
  }

  /** The history after appending `lines` one after another to an empty store (the state right after a drain). */
  function Feed(size: nat, lines: seq<seq<byte>>): (r: Hist)
    ensures |r.content| <= size
    decreases |lines|
  {
    if lines == [] then Hist([], 0)
    else
      Append(size, Feed(size, lines[..|lines| - 1]), lines[|lines| - 1])
  }

  /**
    Conservation across a drain period: every line appended since the last drain
    is either still stored or counted as missed, exactly once.
  */
  lemma {:induction false} Conservation(size: nat, lines: seq<seq<byte>>)
    requires 0 < size
    requires forall i :: 0 <= i < |lines| ==> IsLine(lines[i])
    ensures WholeLines(Feed(size, lines).content)
    ensures LineCount(Feed(size, lines).content) + Feed(size, lines).missed == |lines|
    decreases |lines|
  {
    if lines != [] {
      Conservation(size, lines[..|lines| - 1]);
      AppendConserves(size, Feed(size, lines[..|lines| - 1]), lines[|lines| - 1]);
    }
  }
}
