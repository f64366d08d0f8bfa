/**
  Index arithmetic of the circular history store.

  The store is a fixed array of n bytes with two cursors: `head` (the oldest
  byte) and `tail` (where the next byte goes), plus a `full` flag telling the
  two meanings of head == tail apart. This module gives the chronological
  content such a state denotes, what writing a line at the tail does to the
  array, and how both interact with the content. The functions work on the
  array's value (a sequence), so that the class in term.dfy can state its
  methods against them.
*/
module Ring {
  import opened Lines

  /** The cursor invariant: both cursors inside the array, and full only when they meet. */
  predicate Indices(n: nat, head: nat, tail: nat, full: bool)
  {
    if n == 0 then head == 0 && tail == 0 && !full
    else head < n && tail < n && (full ==> head == tail)
  }

  /** The slot k steps after p on a ring of n slots. */
  function Advance(p: nat, k: nat, n: nat): (r: nat)
    requires p < n && k <= n
    ensures r < n
  {
    if p + k < n then p + k else p + k - n
  }

  /** Advance is the source's `(p + k) % n`. */
  lemma AdvanceIsMod(p: nat, k: nat, n: nat)
    requires p < n && k <= n
    ensures Advance(p, k, n) == (p + k) % n
  {
    if p + k >= n {
      assert p + k == (p + k - n) + n * 1;
    }
  }

  /** Fewer than n steps from the same slot never end on the same slot. */
  lemma AdvanceInjective(p: nat, k1: nat, k2: nat, n: nat)
    requires p < n && k1 < n && k2 < n
    requires Advance(p, k1, n) == Advance(p, k2, n)
    ensures k1 == k2
  {
  }

  /** How many steps forward lead from slot `from` to slot `to` on a ring of n slots. */
  function Dist(from: nat, to: nat, n: nat): (r: nat)
    requires from < n && to < n
    ensures r < n && Advance(from, r, n) == to
  {
    if from <= to then to - from else to + n - from
  }

  /**
    The bytes held by the store, oldest first: `a[head..tail]` when the
    content does not wrap, `a[head..]` followed by `a[..tail]` when it wraps
    or when the store is full.
  */
  function Linear(a: seq<byte>, head: nat, tail: nat, full: bool): (r: seq<byte>)
    requires Indices(|a|, head, tail, full)
    ensures |r| <= |a|
  {
    if !full && head <= tail then a[head..tail] else a[head..] + a[..tail]
  }

  /**
    The content's length is the distance from head to tail, `full` telling
    the empty store (distance 0) from the full one (distance n).
  */
  lemma LinearLength(a: seq<byte>, head: nat, tail: nat, full: bool)
    requires Indices(|a|, head, tail, full)
    ensures full == (|a| > 0 && |Linear(a, head, tail, full)| == |a|)
    ensures |a| > 0 ==> Advance(head, |Linear(a, head, tail, full)|, |a|) == tail
  {
  }

  /** The i-th oldest byte sits i slots after the head. */
  lemma LinearAt(a: seq<byte>, head: nat, tail: nat, full: bool, i: nat)
    requires Indices(|a|, head, tail, full)
    requires i < |Linear(a, head, tail, full)|
    ensures Linear(a, head, tail, full)[i] == a[Advance(head, i, |a|)]
  {
  }

  /**
    The array after a line is copied in at `tail`, running on at slot 0 once
    the end of the array is reached.
  */
  function WriteWrapped(a: seq<byte>, tail: nat, b: seq<byte>): (r: seq<byte>)
    requires tail < |a| && |b| <= |a|
    ensures |r| == |a|
    ensures forall j :: 0 <= j < |b| ==> r[Advance(tail, j, |a|)] == b[j]
    ensures forall p :: 0 <= p < |a| && |b| <= Dist(tail, p, |a|) ==> r[p] == a[p]
  {
    seq(|a|, p requires 0 <= p < |a| => if Dist(tail, p, |a|) < |b| then b[Dist(tail, p, |a|)] else a[p])
  }

  /** Writing nothing leaves the array as it was. */
  lemma WriteWrappedEmpty(a: seq<byte>, tail: nat)
    requires tail < |a|
    ensures WriteWrapped(a, tail, []) == a
  {
    var r := WriteWrapped(a, tail, []);
    forall p | 0 <= p < |a|
      ensures r[p] == a[p]
    {
      assert 0 <= Dist(tail, p, |a|);
    }
  }

  /**
    Go's two copies, `copy(a[tail:], b)` (which copies n bytes) and then, when
    that was not all of b, `copy(a, b[n:])`, produce WriteWrapped.
  */
  lemma WrappedCopy(a: seq<byte>, a': seq<byte>, tail: nat, b: seq<byte>, n: nat)
    requires tail < |a| == |a'| && |b| <= |a|
    requires n == if |a| - tail < |b| then |a| - tail else |b|
    requires forall i :: 0 <= i < n ==> a'[tail + i] == b[i]
    requires forall i :: 0 <= i < |b| - n ==> a'[i] == b[n + i]
    requires forall p :: 0 <= p < |a| && !(tail <= p < tail + n) && !(p < |b| - n) ==> a'[p] == a[p]
    ensures a' == WriteWrapped(a, tail, b)
  {
    forall p | 0 <= p < |a|
      ensures a'[p] == WriteWrapped(a, tail, b)[p]
    {
      if tail <= p < tail + n {
        assert a'[tail + (p - tail)] == b[p - tail];
      } else if p < |b| - n {
        assert a'[p] == b[n + p];
      }
    }
  }

  /**
    Writing a line that fits into the free space at the tail, then advancing
    the tail past it and setting `full` when the tail reaches the head, yields
    the old content followed by the line.
  */
  lemma AppendLinear(a: seq<byte>, head: nat, tail: nat, full: bool, b: seq<byte>)
    requires Indices(|a|, head, tail, full) && |a| > 0
    requires |Linear(a, head, tail, full)| + |b| <= |a|
    requires |b| > 0 || |Linear(a, head, tail, full)| > 0
    ensures var tail' := Advance(tail, |b|, |a|);
            var full' := full || tail' == head;
            Indices(|a|, head, tail', full') &&
            Linear(WriteWrapped(a, tail, b), head, tail', full') == Linear(a, head, tail, full) + b
  {
    var n, m := |a|, |b|;
    var s := Linear(a, head, tail, full);
    var u := |s|;
    var a' := WriteWrapped(a, tail, b);
    var tail' := Advance(tail, m, n);
    var full' := full || tail' == head;
    LinearLength(a, head, tail, full);
    assert tail' == Advance(head, u + m, n);
    assert Indices(n, head, tail', full');
    var s' := Linear(a', head, tail', full');
    LinearLength(a', head, tail', full');
    assert |s'| == u + m;
    forall i | 0 <= i < u + m
      ensures s'[i] == (s + b)[i]
    {
      LinearAt(a', head, tail', full', i);
      var p := Advance(head, i, n);
      if i < u {
        assert Dist(tail, p, n) == n - u + i;
        LinearAt(a, head, tail, full, i);
      } else {
        assert p == Advance(tail, i - u, n);
      }
    }
  }

  /**
    Skipping the i oldest bytes: the head moves i slots on, the store is no
    longer full, and the rest of the content is unchanged.
  */
  lemma LinearSkip(a: seq<byte>, head: nat, tail: nat, full: bool, i: nat)
    requires Indices(|a|, head, tail, full)
    requires 0 < i <= |Linear(a, head, tail, full)|
    ensures Indices(|a|, Advance(head, i, |a|), tail, false)
    ensures Linear(a, Advance(head, i, |a|), tail, false) == Linear(a, head, tail, full)[i..]
  {
    var n := |a|;
    var s := Linear(a, head, tail, full);
    var h := Advance(head, i, n);
    LinearLength(a, head, tail, full);
    assert Indices(n, h, tail, false);
    var s' := Linear(a, h, tail, false);
    LinearLength(a, h, tail, false);
    assert |s'| == |s| - i;
    forall j | 0 <= j < |s'|
      ensures s'[j] == s[i + j]
    {
      LinearAt(a, h, tail, false, j);
      LinearAt(a, head, tail, full, i + j);
    }
  }

  /**
    One step of dropOneLine's scan over the content s of a store whose head
    was h0, after i bytes are consumed: the byte now at the head is s[i], one
    more step leaves |s| - i - 1 bytes, and the scan stops exactly when this
    byte completes the first CR LF.
  */
  lemma ScanStep(a: seq<byte>, h0: nat, tail: nat, f0: bool, s: seq<byte>, i: nat, foundCR: bool)
    requires Indices(|a|, h0, tail, f0) && s == Linear(a, h0, tail, f0)
    requires i < |s| && i <= FirstLineEnd(s) && (i == FirstLineEnd(s) ==> i == |s|)
    requires foundCR == (0 < i && s[i - 1] == CR)
    ensures a[Advance(h0, i, |a|)] == s[i]
    ensures Advance(Advance(h0, i, |a|), 1, |a|) == Advance(h0, i + 1, |a|)
    ensures Advance(Advance(h0, i + 1, |a|), |s| - (i + 1), |a|) == tail
    ensures foundCR && s[i] == LF ==> i + 1 == FirstLineEnd(s)
    ensures !(foundCR && s[i] == LF) ==>
              i + 1 <= FirstLineEnd(s) && (i + 1 == FirstLineEnd(s) ==> i + 1 == |s|)
  {
    LinearAt(a, h0, tail, f0, i);
    LinearLength(a, h0, tail, f0);
    if foundCR && s[i] == LF {
      assert EndsLineAt(s, i + 1);
    }
  }
}
