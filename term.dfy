/**
  The history half of a terminal session (term.go): the ring buffer that
  collects the lines scrolling off the emulator's screen, the threshold
  trigger evaluated on every scrolled line, and the two ways of draining the
  buffer.

  The emulator and the pty are outside the model. A rendered row is an input
  byte sequence, the rendered screen an opaque value handed in by the caller,
  and the two callbacks are recorded rather than run: a counter of
  synchronous `onThreshold` calls and the list of snapshots handed to
  `onThresholdWithFetch`.
*/
module Term {
  import opened Lines
  import opened Ring
  import opened History

  /** History capacity used when the configured size is not positive. */
  const DefaultHistorySize: nat := 4096

  /** The rendered screen, one string per visible row. */
  type Screen = seq<string>

  /** What Fetch and the fetch callback deliver: the screen, the drained history and the lost-line count. */
  datatype FetchResult = FetchResult(screen: Screen, history: seq<byte>, missed: nat)

  /**
    The history part of a session's configuration. `thresholdAtLeastOne` tells
    whether the configured fraction is 1 or more; the fraction itself is a
    float and is not modelled.
  */
  datatype HistoryConfig = HistoryConfig(
    size: int,
    thresholdAtLeastOne: bool,
    onThreshold: bool,
    onThresholdWithFetch: bool)

  /** The configuration the session runs with. */
  datatype Settings = Settings(
    size: nat,
    triggerCount: int,
    onThreshold: bool,
    onThresholdWithFetch: bool)

  /**
    normalizeHistoryConfig. `scaled` stands for the float product of the
    (defaulted) fraction and the size, truncated to an integer.
  */
  function NormalizeHistoryConfig(hc: HistoryConfig, scaled: int): (r: Settings)
    ensures 0 < r.size
    ensures r.size == if hc.size <= 0 then DefaultHistorySize else hc.size
    ensures hc.thresholdAtLeastOne ==> r.size < r.triggerCount && !r.onThreshold && !r.onThresholdWithFetch
    ensures !hc.thresholdAtLeastOne ==>
              r.triggerCount == scaled && r.onThreshold == hc.onThreshold && r.onThresholdWithFetch == hc.onThresholdWithFetch
  {
    var size := if hc.size <= 0 then DefaultHistorySize else hc.size;
    if hc.thresholdAtLeastOne then Settings(size, size + 1, false, false)
    else Settings(size, scaled, hc.onThreshold, hc.onThresholdWithFetch)
  }

  class Term {
    const size: nat
    const history: array<byte>
    var head: nat
    var tail: nat
    var full: bool
    var missed: nat

    const triggerCount: int
    const onThreshold: bool
    const onThresholdWithFetch: bool

    /** How many times the synchronous threshold callback has been called. */
    var thresholdCalls: nat
    /** The snapshots handed to the fetch callback, oldest first. */
    var delivered: seq<FetchResult>

    /** Lines passed to AppendHistory since the last drain. */
    ghost var appended: nat

    ghost predicate Valid()
      reads this
    {
      history.Length == size && Indices(size, head, tail, full)
    }

    /** The stored bytes, oldest first. */
    ghost function Contents(): seq<byte>
      reads this, history
      requires Valid()
    {
      Linear(history[..], head, tail, full)
    }

    /** The stored bytes are whole lines, and each line appended since the last drain is either stored or counted in `missed`. */
    ghost predicate Conserved()
      reads this, history
    {
      Valid() && (0 < size ==> WholeLines(Contents()) && LineCount(Contents()) + missed == appended)
    }

    /** Start's construction of the session state from normalised settings. */
    constructor (s: Settings)
      ensures Valid() && Conserved()
      ensures size == s.size && triggerCount == s.triggerCount
      ensures onThreshold == s.onThreshold && onThresholdWithFetch == s.onThresholdWithFetch
      ensures Contents() == [] && missed == 0
      ensures thresholdCalls == 0 && delivered == []
      ensures fresh(history)
    {
      size := s.size;
      history := new byte[s.size](_ => 0);
      triggerCount := s.triggerCount;
      onThreshold := s.onThreshold;
      onThresholdWithFetch := s.onThresholdWithFetch;
      head, tail, full, missed := 0, 0, false, 0;
      thresholdCalls, delivered := 0, [];
      appended := 0;
    }

    /** usedBytes: the occupancy, the one distance from head to tail that `full` allows. */
    function UsedBytes(): (r: nat)
      reads this
      requires Valid()
      ensures r <= size
      ensures full == (0 < size && r == size)
      ensures 0 < size ==> Advance(head, r, size) == tail
    {
      if full then size
      else if tail >= head then tail - head
      else size - (head - tail)
    }

    /** The occupancy is the length of the stored content. */
    lemma UsedBytesIsLength()
      requires Valid()
      ensures UsedBytes() == |Contents()|
    {
      LinearLength(history[..], head, tail, full);
    }

    /** Below a full store, the occupancy is the one distance from head to tail. */
    lemma UsedBytesIs(r: nat)
      requires Valid() && !full && r < size && Advance(head, r, size) == tail
      ensures UsedBytes() == r
    {
      AdvanceInjective(head, UsedBytes(), r, size);
    }

    /** One step of dropOneLine's scan: takes the byte at the head and moves the head one slot on. */
    method PopFront() returns (ch: byte)
      requires Valid() && 0 < size
      modifies this`head, this`full
      ensures Valid() && tail == old(tail) && !full
      ensures ch == history[old(head)] && head == Advance(old(head), 1, size)
    {
      AdvanceIsMod(head, 1, size);
      ch := history[head];
      head := (head + 1) % size;
      if full {
        full := false;
      }
    }

    /**
      dropOneLine: evicts the oldest line, scanning from the head up to and
      including the first CR LF, or everything when there is none.
    */
    method DropOneLine()
      requires Valid()
      modifies this`head, this`full, this`missed
      ensures Valid() && tail == old(tail)
      ensures old(Contents()) == [] ==> head == old(head) && full == old(full) && missed == old(missed)
      ensures old(Contents()) != [] ==>
                !full && missed == old(missed) + 1 &&
                Contents() == old(Contents())[FirstLineEnd(old(Contents()))..]
    {
      UsedBytesIsLength();
      if UsedBytes() == 0 {
        return;
      }
      ghost var a := history[..];
      ghost var s := Contents();
      ghost var h0, f0 := head, full;
      ghost var i := 0;
      var foundCR := false;
      while UsedBytes() > 0
        invariant Valid() && tail == old(tail) && missed == old(missed)
        invariant i <= FirstLineEnd(s) && (i == FirstLineEnd(s) ==> i == |s|)
        invariant head == Advance(h0, i, size) && full == (f0 && i == 0)
        invariant UsedBytes() == |s| - i
        invariant foundCR == (0 < i && s[i - 1] == CR)
        decreases |s| - i
      {
        ScanStep(a, h0, tail, f0, s, i, foundCR);
        var ch := PopFront();
        i := i + 1;
        UsedBytesIs(|s| - i);
        if foundCR && ch == LF {
          break;
        }
        foundCR := ch == CR;
      }
      assert i == FirstLineEnd(s) && head == Advance(h0, i, size) && !full;
      LinearSkip(a, h0, tail, f0, i);
      assert history[..] == a;
      missed := missed + 1;
    }

    /**
      The eviction loop of appendHistory ("ensure space"): drops the oldest
      line until `need` bytes are free.
    */
    method MakeRoom(need: nat)
      requires Valid() && need <= size
      modifies this`head, this`full, this`missed
      ensures Valid() && tail == old(tail)
      ensures need <= size - UsedBytes()
      ensures Contents() == Evict(old(Contents()), need, size).0
      ensures missed == old(missed) + Evict(old(Contents()), need, size).1
    {
      ghost var a := history[..];
      ghost var s0 := Contents();
      ghost var m0 := missed;
      ghost var cur := s0;
      ghost var dropped: nat := 0;
      UsedBytesIsLength();
      while size - UsedBytes() < need
        invariant Valid() && tail == old(tail)
        invariant missed == m0 + dropped
        invariant cur == Linear(a, head, tail, full) && |cur| <= size
        invariant Evict(cur, need, size).0 == Evict(s0, need, size).0
        invariant Evict(cur, need, size).1 + dropped == Evict(s0, need, size).1
        decreases |cur|
      {
        UsedBytesIsLength();
        EvictStep(cur, need, size);
        DropOneLine();
        cur := cur[FirstLineEnd(cur)..];
        dropped := dropped + 1;
        UsedBytesIsLength();
      }
      UsedBytesIsLength();
    }

    /**
      The two copies of appendHistory's write: b goes in at the tail, running
      on at slot 0 when it reaches the end of the array.
    */
    method CopyWrapped(b: seq<byte>)
      requires Valid() && 0 < size && |b| <= size
      modifies history
      ensures history[..] == WriteWrapped(old(history[..]), tail, b)
    {
      ghost var a := history[..];
      var need := |b|;
      var n := if size - tail < need then size - tail else need;
      forall i | 0 <= i < n {
        history[tail + i] := b[i];
      }
      if n < need {
        forall i | 0 <= i < need - n {
          history[i] := b[n + i];
        }
      }
      WrappedCopy(a, history[..], tail, b, n);
    }

    /**
      The write half of appendHistory: copies b in at the tail, advances the
      tail and sets `full` when the tail lands on the head. The caller has
      made room for b.
    */
    method WriteAtTail(b: seq<byte>)
      requires Valid() && 0 < size && UsedBytes() + |b| <= size
      modifies this`tail, this`full, history
      ensures Valid() && head == old(head)
      ensures tail == (old(tail) + |b|) % size && full == (tail == head)
      ensures 0 < |b| || 0 < old(UsedBytes()) ==> Contents() == old(Contents()) + b
      ensures |b| == 0 && old(Contents()) == [] ==> full && UsedBytes() == size
      ensures |b| == 0 ==> history[..] == old(history[..])
    {
      ghost var a := history[..];
      ghost var t0, f0 := tail, full;
      UsedBytesIsLength();
      var need := |b|;
      CopyWrapped(b);
      if need == 0 {
        WriteWrappedEmpty(a, tail);
      }
      AdvanceIsMod(tail, need, size);
      tail := (tail + need) % size;
      if tail == head {
        full := true;
      }
      if 0 < need || 0 < |Linear(a, head, t0, f0)| {
        AppendLinear(a, head, t0, f0, b);
      }
    }

    /**
      The storing half of appendHistory, for a line that fits the store:
      evicts the oldest lines until it fits, then writes it at the tail.
    */
    method Store(b: seq<byte>)
      requires Valid() && 0 < size && |b| <= size
      modifies this`head, this`tail, this`full, this`missed, history
      ensures Valid()
      ensures tail == (old(tail) + |b|) % size && full == (tail == head)
      ensures missed == old(missed) + Evict(old(Contents()), |b|, size).1
      ensures b != [] || old(Contents()) != [] ==> Contents() == Evict(old(Contents()), |b|, size).0 + b
      ensures b == [] && old(Contents()) == [] ==>
                full && UsedBytes() == size && missed == old(missed) && history[..] == old(history[..])
    {
      ghost var s0, m0 := Contents(), missed;
      ghost var e := Evict(s0, |b|, size);
      ghost var kept, lost := e.0, e.1;
      assert b == [] ==> kept == s0 && lost == 0;
      UsedBytesIsLength();
      MakeRoom(|b|);
      assert Contents() == kept && missed == m0 + lost;
      UsedBytesIsLength();
      WriteAtTail(b);
    }

    /**
      appendHistory: a line longer than the whole store is only counted as
      missed; otherwise old lines are evicted until it fits and it is copied in
      at the tail, wrapping round the end of the array.
    */
    method AppendHistory(b: seq<byte>)
      requires Valid()
      modifies this`head, this`tail, this`full, this`missed, this`appended, history
      ensures Valid()
      ensures size == 0 ==> unchanged(this) && unchanged(history)
      ensures 0 < size ==> appended == old(appended) + 1
      ensures 0 < size < |b| ==>
                missed == old(missed) + 1 && head == old(head) && tail == old(tail) && full == old(full) &&
                unchanged(history)
      ensures 0 < size && |b| <= size ==>
                tail == (old(tail) + |b|) % size && full == (tail == head)
      ensures !(0 < size && b == [] && old(Contents()) == []) ==>
                Contents() == Append(size, Hist(old(Contents()), old(missed)), b).content &&
                missed == Append(size, Hist(old(Contents()), old(missed)), b).missed
      ensures 0 < size && b == [] && old(Contents()) == [] ==>
                full && UsedBytes() == size && missed == old(missed) && history[..] == old(history[..])
      ensures old(Conserved()) && IsLine(b) ==> Conserved()
    {
      if size == 0 {
        return;
      }
      ghost var h0 := Hist(Contents(), missed);
      ghost var c0 := Conserved();
      var need := |b|;
      if need > size {
        missed, appended := missed + 1, appended + 1;
        assert c0 && IsLine(b) ==> Conserved();
        return;
      }
      Store(b);
      appended := appended + 1;
      AppendFits(size, h0, b);
      if c0 && IsLine(b) {
        AppendConserves(size, h0, b);
      }
    }

    /**
      unsafeFetch: hands out the screen, the stored bytes in chronological
      order and the missed count, then empties the history.
    */
    method UnsafeFetch(screen: Screen) returns (out: FetchResult)
      requires Valid()
      modifies this`head, this`full, this`missed, this`appended
      ensures out.screen == screen && out.history == old(Contents()) && out.missed == old(missed)
      ensures |out.history| == old(UsedBytes())
      ensures old(Conserved()) && 0 < size ==>
                WholeLines(out.history) && LineCount(out.history) + out.missed == old(appended)
      ensures Valid() && tail == old(tail) && head == tail && !full
      ensures Contents() == [] && UsedBytes() == 0 && missed == 0
      ensures Conserved()
    {
      UsedBytesIsLength();
      var used := UsedBytes();
      var h: seq<byte> := [];
      if used > 0 {
        if full {
          h := history[head..] + history[..tail];
        } else if tail >= head {
          h := history[head..head + used];
        } else {
          h := history[head..] + history[..tail];
        }
      }
      out := FetchResult(screen, h, missed);
      missed := 0;
      head := tail;
      full := false;
      appended := 0;
    }

    /** DropHistory: empties the history without handing anything out. */
    method DropHistory()
      requires Valid()
      modifies this`head, this`full, this`missed, this`appended
      ensures Valid() && tail == old(tail) && head == tail && !full
      ensures Contents() == [] && UsedBytes() == 0 && missed == 0
      ensures Conserved()
    {
      missed := 0;
      head := tail;
      full := false;
      appended := 0;
    }

    /**
      onScrollback: for the row scrolling off the screen, first tests the
      occupancy against the trigger count (calling the threshold callback,
      and draining into the fetch callback, when it is exceeded), then stores
      the rendered row followed by CR LF.
    */
    method OnScrollback(line: seq<byte>, screen: Screen)
      requires Valid()
      modifies this`head, this`tail, this`full, this`missed, this`appended, this`thresholdCalls, this`delivered, history
      ensures Valid()
      ensures var fired := old(UsedBytes()) > triggerCount;
              thresholdCalls == old(thresholdCalls) + (if fired && onThreshold then 1 else 0) &&
              delivered == old(delivered) +
                (if fired && onThresholdWithFetch then [FetchResult(screen, old(Contents()), old(missed))] else [])
      ensures size <= triggerCount ==> thresholdCalls == old(thresholdCalls) && delivered == old(delivered)
      ensures var drained := old(UsedBytes()) > triggerCount && onThresholdWithFetch;
              var before := if drained then Hist([], 0) else Hist(old(Contents()), old(missed));
              Contents() == Append(size, before, Terminated(line)).content &&
              missed == Append(size, before, Terminated(line)).missed
      ensures 0 < size && old(UsedBytes()) > triggerCount && onThresholdWithFetch && |line| + 2 <= size ==>
                Contents() == Terminated(line) && missed == 0
      ensures old(Conserved()) && NoLineBreaks(line) ==> Conserved()
    {
      ghost var h0 := Hist(Contents(), missed);
      ghost var c0 := Conserved();
      var used := UsedBytes();
      if used > triggerCount {
        if onThreshold {
          thresholdCalls := thresholdCalls + 1;
        }
        if onThresholdWithFetch {
          var out := UnsafeFetch(screen);
          delivered := delivered + [out];
        }
      }
      ghost var calls, snapshots := thresholdCalls, delivered;
      assert calls == old(thresholdCalls) + (if used > triggerCount && onThreshold then 1 else 0);
      assert snapshots == old(delivered) +
        (if used > triggerCount && onThresholdWithFetch then [FetchResult(screen, h0.content, h0.missed)] else []);
      ghost var before := Hist(Contents(), missed);
      assert before == if used > triggerCount && onThresholdWithFetch then Hist([], 0) else h0;
      assert c0 ==> Conserved();
      var lineBytes := Terminated(line);
      AppendHistory(lineBytes);
      assert thresholdCalls == calls && delivered == snapshots;
      if 0 < size && used > triggerCount && onThresholdWithFetch {
        AppendToEmpty(size, lineBytes);
      }
    }
  }
}
