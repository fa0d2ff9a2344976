/**
 * The playback buffer of the renderer as values: the ordered list of frames
 * waiting to be shown, and the specification of every operation the
 * renderer performs on it. The renderer's methods are proved to compute
 * exactly these functions.
 */
module Playback {
  import opened RgbFrames

  /** A buffered frame is rendered when it is at most this many milliseconds away from now. */
  const ToleranceMs: int := 10

  /** A buffered frame this many milliseconds late, or more, is dropped. */
  const StaleMs: int := 1000

  /** Frames in ascending timestamp order. */
  predicate Sorted(buf: seq<RgbFrame>) {
    forall i, j | 0 <= i < j < |buf| :: buf[i].timestamp <= buf[j].timestamp
  }

  // ---------------------------------------------------------------------------
  // Queueing: `queue_frame` appends, then sorts by timestamp (a stable sort).
  // ---------------------------------------------------------------------------

  /** Inserts `f` into a sorted buffer after every frame whose timestamp is not greater. */
  function Insert(buf: seq<RgbFrame>, f: RgbFrame): (r: seq<RgbFrame>)
    ensures |r| == |buf| + 1
  {
    if buf == [] then [f]
    else if f.timestamp < buf[0].timestamp then [f] + buf
    else [buf[0]] + Insert(buf[1..], f)
  }

  /** Inserting adds `f` and loses nothing. */
  lemma {:induction false} InsertMultiset(buf: seq<RgbFrame>, f: RgbFrame)
    ensures multiset(Insert(buf, f)) == multiset(buf) + multiset{f}
  {
    if buf == [] {
    } else if f.timestamp < buf[0].timestamp {
      assert Insert(buf, f) == [f] + buf;
    } else {
      InsertMultiset(buf[1..], f);
      assert Insert(buf, f) == [buf[0]] + Insert(buf[1..], f);
      assert buf == [buf[0]] + buf[1..];
    }
  }

  /** Python's `sorted(frames, key=timestamp)`, a stable sort, as an insertion sort. */
  function SortByTimestamp(s: seq<RgbFrame>): seq<RgbFrame> {
    if s == [] then [] else Insert(SortByTimestamp(s[..|s| - 1]), s[|s| - 1])
  }

  /** Sorting yields a sorted permutation of its input. */
  lemma {:induction false} SortByTimestampSpec(s: seq<RgbFrame>)
    ensures Sorted(SortByTimestamp(s))
    ensures multiset(SortByTimestamp(s)) == multiset(s)
  {
    if s != [] {
      var init := s[..|s| - 1];
      SortByTimestampSpec(init);
      InsertSorted(SortByTimestamp(init), s[|s| - 1]);
      InsertMultiset(SortByTimestamp(init), s[|s| - 1]);
      assert s == init + [s[|s| - 1]];
    }
  }

  /** Inserting into a sorted buffer keeps it sorted. */
  lemma {:induction false} InsertSorted(buf: seq<RgbFrame>, f: RgbFrame)
    requires Sorted(buf)
    ensures Sorted(Insert(buf, f))
  {
    if buf != [] && f.timestamp >= buf[0].timestamp {
      var tail := Insert(buf[1..], f);
      InsertSorted(buf[1..], f);
      InsertMultiset(buf[1..], f);
      forall k | 0 <= k < |tail| ensures buf[0].timestamp <= tail[k].timestamp {
        assert tail[k] in multiset(buf[1..]) + multiset{f};
        if tail[k] != f {
          var j :| 0 <= j < |buf[1..]| && buf[1..][j] == tail[k];
          assert buf[j + 1] == tail[k];
        }
      }
      SortedCons(buf[0], tail);
    }
  }

  /** A frame no later than every frame of a sorted sequence may go at its front. */
  lemma SortedCons(g: RgbFrame, s: seq<RgbFrame>)
    requires Sorted(s)
    requires forall k | 0 <= k < |s| :: g.timestamp <= s[k].timestamp
    ensures Sorted([g] + s)
  {
    var r := [g] + s;
    forall i, j | 0 <= i < j < |r| ensures r[i].timestamp <= r[j].timestamp {
      if i > 0 {
        assert r[i] == s[i - 1] && r[j] == s[j - 1];
      } else {
        assert r[j] == s[j - 1];
      }
    }
  }

  /** The number of leading frames whose timestamp is at most `t`. */
  function CountAtMost(buf: seq<RgbFrame>, t: int): (k: nat)
    ensures k <= |buf|
  {
    if buf != [] && buf[0].timestamp <= t then 1 + CountAtMost(buf[1..], t) else 0
  }

  /**
   * In a sorted buffer, `f` lands right after the last frame whose timestamp
   * is not greater than its own: frames with equal timestamps keep their
   * order and the new frame comes after them.
   */
  lemma InsertPosition(buf: seq<RgbFrame>, f: RgbFrame)
    requires Sorted(buf)
    ensures var k := CountAtMost(buf, f.timestamp);
      && Insert(buf, f) == buf[..k] + [f] + buf[k..]
      && (forall j | 0 <= j < k :: buf[j].timestamp <= f.timestamp)
      && (forall j | k <= j < |buf| :: buf[j].timestamp > f.timestamp)
  {
    var k := CountAtMost(buf, f.timestamp);
    var r := Insert(buf, f);
    InsertSplits(buf, f);
    CountAtMostSplits(buf, f.timestamp);
    assert r == r[..k] + [r[k]] + r[k + 1..];
  }

  lemma {:induction false} InsertSplits(buf: seq<RgbFrame>, f: RgbFrame)
    ensures var k := CountAtMost(buf, f.timestamp); var r := Insert(buf, f);
      r[..k] == buf[..k] && r[k] == f && r[k + 1..] == buf[k..]
  {
    var k := CountAtMost(buf, f.timestamp);
    var r := Insert(buf, f);
    if buf != [] && buf[0].timestamp <= f.timestamp {
      var rest := buf[1..];
      InsertSplits(rest, f);
      var r' := Insert(rest, f);
      assert r == [buf[0]] + r';
      assert r[..k] == [buf[0]] + r'[..k - 1];
      assert buf[..k] == [buf[0]] + rest[..k - 1];
      assert r[k + 1..] == r'[k..];
      assert buf[k..] == rest[k - 1..];
    }
  }

  lemma {:induction false} CountAtMostSplits(buf: seq<RgbFrame>, t: int)
    requires Sorted(buf)
    ensures var k := CountAtMost(buf, t);
      && (forall j | 0 <= j < k :: buf[j].timestamp <= t)
      && (forall j | k <= j < |buf| :: buf[j].timestamp > t)
  {
    var k := CountAtMost(buf, t);
    if buf != [] && buf[0].timestamp <= t {
      var rest := buf[1..];
      assert Sorted(rest);
      CountAtMostSplits(rest, t);
      forall j | 0 <= j < k ensures buf[j].timestamp <= t {
        if j > 0 { assert buf[j] == rest[j - 1]; }
      }
      forall j | k <= j < |buf| ensures buf[j].timestamp > t {
        assert buf[j] == rest[j - 1];
      }
    }
  }

  /** Every frame is at most the last one appended when it is not later. */
  lemma {:induction false} InsertAtEnd(buf: seq<RgbFrame>, f: RgbFrame)
    requires forall j | 0 <= j < |buf| :: buf[j].timestamp <= f.timestamp
    ensures Insert(buf, f) == buf + [f]
  {
    if buf != [] {
      InsertAtEnd(buf[1..], f);
      assert buf == [buf[0]] + buf[1..];
    }
  }

  /** Sorting an already sorted buffer changes nothing. */
  lemma SortSortedIsIdentity(s: seq<RgbFrame>)
    requires Sorted(s)
    ensures SortByTimestamp(s) == s
  {
    assert s[..0] == [];
    for i := 0 to |s|
      invariant SortByTimestamp(s[..i]) == s[..i]
    {
      SortPrefixStep(s, i);
      InsertAtEnd(s[..i], s[i]);
    }
    assert s[..|s|] == s;
  }

  /** Sorting one element more inserts it into the sorted shorter prefix. */
  lemma SortPrefixStep(s: seq<RgbFrame>, i: nat)
    requires i < |s|
    ensures SortByTimestamp(s[..i + 1]) == Insert(SortByTimestamp(s[..i]), s[i])
    ensures s[..i] + [s[i]] == s[..i + 1]
  {
    var p := s[..i + 1];
    assert p[..|p| - 1] == s[..i] && p[|p| - 1] == s[i];
  }

  /**
   * `queue_frame` on a sorted buffer: appending `f` and sorting is inserting
   * `f` after every frame whose timestamp is not greater than its own.
   */
  lemma QueueFrameInserts(buf: seq<RgbFrame>, f: RgbFrame)
    requires Sorted(buf)
    ensures SortByTimestamp(buf + [f]) == Insert(buf, f)
  {
    var s := buf + [f];
    assert s[..|s| - 1] == buf;
    SortSortedIsIdentity(buf);
  }

  // ---------------------------------------------------------------------------
  // Filtering by output: `clear_buffer` and the purge of `update_configs`.
  // ---------------------------------------------------------------------------

  /** The frames of `buf`, in order, whose pin is in `pins` (when `keep`) or not in `pins` (when `!keep`). */
  function Filter(buf: seq<RgbFrame>, pins: set<string>, keep: bool): (r: seq<RgbFrame>)
    ensures |r| <= |buf|
  {
    if buf == [] then []
    else Filter(buf[..|buf| - 1], pins, keep) + (if (buf[|buf| - 1].pin in pins) == keep then [buf[|buf| - 1]] else [])
  }

  /** Filtering one frame more of a buffer's prefix. */
  lemma FilterPrefixStep(buf: seq<RgbFrame>, pins: set<string>, keep: bool, j: nat)
    requires j < |buf|
    ensures Filter(buf[..j + 1], pins, keep)
      == Filter(buf[..j], pins, keep) + (if (buf[j].pin in pins) == keep then [buf[j]] else [])
  {
    assert buf[..j + 1][..j] == buf[..j];
  }

  /** The frames of `buf` for output `pin`, in order. */
  function OnPin(buf: seq<RgbFrame>, pin: string): seq<RgbFrame> {
    Filter(buf, {pin}, true)
  }

  /** A frame survives a filter exactly when it was in the buffer and passes the test. */
  lemma {:induction false} FilterMembership(buf: seq<RgbFrame>, pins: set<string>, keep: bool, f: RgbFrame)
    ensures f in Filter(buf, pins, keep) <==> f in buf && (f.pin in pins) == keep
  {
    if buf != [] {
      var init := buf[..|buf| - 1];
      FilterMembership(init, pins, keep, f);
      assert buf == init + [buf[|buf| - 1]];
    }
  }

  /** Filtering only removes frames. */
  lemma {:induction false} FilterSubMultiset(buf: seq<RgbFrame>, pins: set<string>, keep: bool)
    ensures multiset(Filter(buf, pins, keep)) <= multiset(buf)
  {
    if buf != [] {
      var init := buf[..|buf| - 1];
      FilterSubMultiset(init, pins, keep);
      assert buf == init + [buf[|buf| - 1]];
    }
  }

  /** Filtering keeps the buffer sorted. */
  lemma {:induction false} FilterSorted(buf: seq<RgbFrame>, pins: set<string>, keep: bool)
    requires Sorted(buf)
    ensures Sorted(Filter(buf, pins, keep))
  {
    if buf != [] {
      var init := buf[..|buf| - 1];
      FilterSorted(init, pins, keep);
      var r := Filter(init, pins, keep);
      forall k | 0 <= k < |r| ensures r[k].timestamp <= buf[|buf| - 1].timestamp {
        FilterMembership(init, pins, keep, r[k]);
      }
    }
  }

  /**
   * What a filter does to one output's frames: they are untouched (same
   * frames, same order) when that output passes, and all gone otherwise.
   */
  lemma {:induction false} FilterOnPin(buf: seq<RgbFrame>, pins: set<string>, keep: bool, q: string)
    ensures (q in pins) == keep ==> OnPin(Filter(buf, pins, keep), q) == OnPin(buf, q)
    ensures (q in pins) != keep ==> OnPin(Filter(buf, pins, keep), q) == []
  {
    if buf != [] {
      var init := buf[..|buf| - 1];
      var last := buf[|buf| - 1];
      FilterOnPin(init, pins, keep, q);
      var r := Filter(init, pins, keep);
      var tail := if (last.pin in pins) == keep then [last] else [];
      OnPinAppend(r, tail, q);
    }
  }

  lemma {:induction false} OnPinAppend(a: seq<RgbFrame>, b: seq<RgbFrame>, q: string)
    requires |b| <= 1
    ensures OnPin(a + b, q) == OnPin(a, q) + OnPin(b, q)
  {
    if b != [] {
      assert (a + b)[..|a + b| - 1] == a;
    } else {
      assert a + b == a;
    }
  }

  /** `clear_buffer(pin)`: the frames of every other output, in their order. */
  function ClearPin(buf: seq<RgbFrame>, pin: string): seq<RgbFrame> {
    Filter(buf, {pin}, false)
  }

  /**
   * After clearing `pin`, no frame for `pin` is left and every other output
   * keeps exactly its frames in their order; a sorted buffer stays sorted.
   */
  lemma ClearPinSpec(buf: seq<RgbFrame>, pin: string, q: string, f: RgbFrame)
    ensures OnPin(ClearPin(buf, pin), pin) == []
    ensures q != pin ==> OnPin(ClearPin(buf, pin), q) == OnPin(buf, q)
    ensures f in ClearPin(buf, pin) <==> f in buf && f.pin != pin
    ensures Sorted(buf) ==> Sorted(ClearPin(buf, pin))
  {
    FilterOnPin(buf, {pin}, false, pin);
    FilterOnPin(buf, {pin}, false, q);
    FilterMembership(buf, {pin}, false, f);
    if Sorted(buf) {
      FilterSorted(buf, {pin}, false);
    }
  }

  /** The purge of `update_configs`: the frames whose output is configured, in their order. */
  function KeepConfigured(buf: seq<RgbFrame>, outputs: set<string>): seq<RgbFrame> {
    Filter(buf, outputs, true)
  }

  /**
   * A frame survives the purge exactly when its output is configured; the
   * frames of a configured output keep their order, and sortedness is kept.
   */
  lemma KeepConfiguredSpec(buf: seq<RgbFrame>, outputs: set<string>, q: string, f: RgbFrame)
    ensures f in KeepConfigured(buf, outputs) <==> f in buf && f.pin in outputs
    ensures q in outputs ==> OnPin(KeepConfigured(buf, outputs), q) == OnPin(buf, q)
    ensures q !in outputs ==> OnPin(KeepConfigured(buf, outputs), q) == []
    ensures Sorted(buf) ==> Sorted(KeepConfigured(buf, outputs))
  {
    FilterOnPin(buf, outputs, true, q);
    FilterMembership(buf, outputs, true, f);
    if Sorted(buf) {
      FilterSorted(buf, outputs, true);
    }
  }

  // ---------------------------------------------------------------------------
  // The rendering decision of `render_queue`, as a verdict per buffered frame.
  // ---------------------------------------------------------------------------

  /** `abs(timestamp - now) <= threshold`. */
  predicate InTolerance(f: RgbFrame, now: int) {
    -ToleranceMs <= f.timestamp - now <= ToleranceMs
  }

  /** Older than one second ago. */
  predicate IsStale(f: RgbFrame, now: int) {
    f.timestamp < now - StaleMs
  }

  /** Some frame for `pin` among the first `k` was within tolerance. */
  predicate CandidateBefore(buf: seq<RgbFrame>, now: int, k: nat, pin: string)
    requires k <= |buf|
  {
    exists j | 0 <= j < k :: InTolerance(buf[j], now) && buf[j].pin == pin
  }

  /** What one pass does with a buffered frame: render it, keep holding it, or drop it. */
  datatype Verdict = Render | Hold | Drop

  /**
   * The verdict on frame `k`: rendered when it is within tolerance and no
   * earlier frame for its output was; dropped when it is outside tolerance
   * and stale; held otherwise.
   */
  function VerdictAt(buf: seq<RgbFrame>, now: int, k: nat): Verdict
    requires k < |buf|
  {
    var f := buf[k];
    if InTolerance(f, now) then (if CandidateBefore(buf, now, k, f.pin) then Hold else Render)
    else if IsStale(f, now) then Drop
    else Hold
  }

  /** The frames among the first `n` that receive verdict `v`, in buffer order. */
  function Collect(buf: seq<RgbFrame>, now: int, v: Verdict, n: nat): (r: seq<RgbFrame>)
    requires n <= |buf|
    ensures |r| <= n
  {
    if n == 0 then []
    else Collect(buf, now, v, n - 1) + (if VerdictAt(buf, now, n - 1) == v then [buf[n - 1]] else [])
  }

  /** One frame more: it joins the frames of its own verdict, and the other collections stay. */
  lemma CollectNext(buf: seq<RgbFrame>, now: int, j: nat)
    requires j < |buf|
    ensures VerdictAt(buf, now, j) == Render ==> Collect(buf, now, Render, j + 1) == Collect(buf, now, Render, j) + [buf[j]]
    ensures VerdictAt(buf, now, j) != Render ==> Collect(buf, now, Render, j + 1) == Collect(buf, now, Render, j)
    ensures VerdictAt(buf, now, j) == Hold ==> Collect(buf, now, Hold, j + 1) == Collect(buf, now, Hold, j) + [buf[j]]
    ensures VerdictAt(buf, now, j) != Hold ==> Collect(buf, now, Hold, j + 1) == Collect(buf, now, Hold, j)
  {
  }

  /** The frames a pass at `now` renders, in order. */
  function ToRender(buf: seq<RgbFrame>, now: int): seq<RgbFrame> {
    Collect(buf, now, Render, |buf|)
  }

  /** The buffer a pass at `now` leaves behind. */
  function Remaining(buf: seq<RgbFrame>, now: int): seq<RgbFrame> {
    Collect(buf, now, Hold, |buf|)
  }

  /** The frames a pass at `now` drops as stale. */
  function Dropped(buf: seq<RgbFrame>, now: int): seq<RgbFrame> {
    Collect(buf, now, Drop, |buf|)
  }

  /** A frame is collected exactly when it sits at an index with that verdict. */
  lemma {:induction false} CollectMembership(buf: seq<RgbFrame>, now: int, v: Verdict, n: nat, f: RgbFrame)
    requires n <= |buf|
    ensures f in Collect(buf, now, v, n) <==> exists k | 0 <= k < n :: VerdictAt(buf, now, k) == v && buf[k] == f
  {
    if f in Collect(buf, now, v, n) {
      var k := CollectedIndex(buf, now, v, n, f);
    }
    if exists k | 0 <= k < n :: VerdictAt(buf, now, k) == v && buf[k] == f {
      var k :| 0 <= k < n && VerdictAt(buf, now, k) == v && buf[k] == f;
      IndexCollected(buf, now, v, n, k);
    }
  }

  /** A collected frame sits at an index, among the first `n`, with that verdict. */
  lemma {:induction false} CollectedIndex(buf: seq<RgbFrame>, now: int, v: Verdict, n: nat, f: RgbFrame) returns (k: nat)
    requires n <= |buf| && f in Collect(buf, now, v, n)
    ensures k < n && VerdictAt(buf, now, k) == v && buf[k] == f
  {
    var prev := Collect(buf, now, v, n - 1);
    if f in prev {
      k := CollectedIndex(buf, now, v, n - 1, f);
    } else {
      assert Collect(buf, now, v, n) == prev + (if VerdictAt(buf, now, n - 1) == v then [buf[n - 1]] else []);
      k := n - 1;
    }
  }

  /** A frame among the first `n` with verdict `v` is collected. */
  lemma {:induction false} IndexCollected(buf: seq<RgbFrame>, now: int, v: Verdict, n: nat, k: nat)
    requires k < n <= |buf| && VerdictAt(buf, now, k) == v
    ensures buf[k] in Collect(buf, now, v, n)
  {
    var prev := Collect(buf, now, v, n - 1);
    if k < n - 1 {
      IndexCollected(buf, now, v, n - 1, k);
      var last := if VerdictAt(buf, now, n - 1) == v then [buf[n - 1]] else [];
      assert Collect(buf, now, v, n) == prev + last;
    } else {
      assert Collect(buf, now, v, n) == prev + [buf[k]];
    }
  }

  /** A frame within tolerance has a rendered frame for its output at or before it. */
  lemma {:induction false} FirstCandidateRendered(buf: seq<RgbFrame>, now: int, j: nat)
    requires j < |buf| && InTolerance(buf[j], now)
    ensures exists k | 0 <= k <= j :: VerdictAt(buf, now, k) == Render && buf[k].pin == buf[j].pin
    decreases j
  {
    if VerdictAt(buf, now, j) != Render {
      var j' :| 0 <= j' < j && InTolerance(buf[j'], now) && buf[j'].pin == buf[j].pin;
      FirstCandidateRendered(buf, now, j');
    }
  }

  /** Some frame of `s` is for `pin`. */
  predicate HasPin(s: seq<RgbFrame>, pin: string) {
    exists t | 0 <= t < |s| :: s[t].pin == pin
  }

  /**
   * While a pass walks the buffer, an output already has a frame selected
   * exactly when one of its frames seen so far was within tolerance.
   */
  lemma RenderedPins(buf: seq<RgbFrame>, now: int, n: nat, pin: string)
    requires n <= |buf|
    ensures HasPin(Collect(buf, now, Render, n), pin) <==> CandidateBefore(buf, now, n, pin)
  {
    var sel := Collect(buf, now, Render, n);
    if t :| 0 <= t < |sel| && sel[t].pin == pin {
      CollectMembership(buf, now, Render, n, sel[t]);
    }
    if CandidateBefore(buf, now, n, pin) {
      var j :| 0 <= j < n && InTolerance(buf[j], now) && buf[j].pin == pin;
      FirstCandidateRendered(buf, now, j);
      var k :| 0 <= k <= j && VerdictAt(buf, now, k) == Render && buf[k].pin == pin;
      CollectMembership(buf, now, Render, n, buf[k]);
      var t :| 0 <= t < |sel| && sel[t] == buf[k];
    }
  }

  /** No two frames of `s` are for the same output. */
  predicate OnePerPin(s: seq<RgbFrame>) {
    forall a, b | 0 <= a < b < |s| :: s[a].pin != s[b].pin
  }

  /** At most one frame per output is rendered in a pass. */
  lemma {:induction false} AtMostOnePerPin(buf: seq<RgbFrame>, now: int, n: nat)
    requires n <= |buf|
    ensures OnePerPin(Collect(buf, now, Render, n))
  {
    if n > 0 {
      AtMostOnePerPin(buf, now, n - 1);
      var x := buf[n - 1];
      var prev := Collect(buf, now, Render, n - 1);
      if VerdictAt(buf, now, n - 1) == Render {
        RenderedPins(buf, now, n - 1, x.pin);
        var sel := prev + [x];
        assert sel == Collect(buf, now, Render, n);
        assert !HasPin(prev, x.pin);
        forall a, b | 0 <= a < b < |sel| ensures sel[a].pin != sel[b].pin {
          assert sel[a] == prev[a];
          if b < |prev| {
            assert sel[b] == prev[b];
          } else {
            assert sel[b] == x;
            assert prev[a].pin != x.pin;
          }
        }
      } else {
        assert Collect(buf, now, Render, n) == prev;
      }
    }
  }

  /** Every rendered frame is within tolerance of `now`. */
  lemma RenderedWithinTolerance(buf: seq<RgbFrame>, now: int, f: RgbFrame)
    requires f in ToRender(buf, now)
    ensures -ToleranceMs <= f.timestamp - now <= ToleranceMs
  {
    CollectMembership(buf, now, Render, |buf|, f);
  }

  /**
   * The frame rendered for an output is the first frame for that output, in
   * buffer order, that is within tolerance; every later frame for that
   * output within tolerance is held for the next pass.
   */
  lemma FirstInToleranceWins(buf: seq<RgbFrame>, now: int, k: nat)
    requires k < |buf| && InTolerance(buf[k], now)
    ensures !CandidateBefore(buf, now, k, buf[k].pin) ==> buf[k] in ToRender(buf, now)
    ensures CandidateBefore(buf, now, k, buf[k].pin) ==> buf[k] in Remaining(buf, now)
  {
    CollectMembership(buf, now, Render, |buf|, buf[k]);
    CollectMembership(buf, now, Hold, |buf|, buf[k]);
  }

  /**
   * A frame due exactly now is rendered, unless an earlier frame for the
   * same output was within tolerance and is rendered instead.
   */
  lemma DueFrameRendersItsOutput(buf: seq<RgbFrame>, now: int, k: nat)
    requires k < |buf| && buf[k].timestamp == now
    ensures exists f | f in ToRender(buf, now) :: f.pin == buf[k].pin
    ensures !CandidateBefore(buf, now, k, buf[k].pin) ==> buf[k] in ToRender(buf, now)
  {
    FirstCandidateRendered(buf, now, k);
    var j :| 0 <= j <= k && VerdictAt(buf, now, j) == Render && buf[j].pin == buf[k].pin;
    CollectMembership(buf, now, Render, |buf|, buf[j]);
    FirstInToleranceWins(buf, now, k);
  }

  /** Exactly the stale frames are dropped; nothing left in the buffer is stale. */
  lemma StaleFramesDropped(buf: seq<RgbFrame>, now: int, f: RgbFrame)
    ensures f in Dropped(buf, now) <==> f in buf && IsStale(f, now)
    ensures f in Remaining(buf, now) ==> !IsStale(f, now)
    ensures f in ToRender(buf, now) ==> !IsStale(f, now)
  {
    CollectMembership(buf, now, Drop, |buf|, f);
    CollectMembership(buf, now, Hold, |buf|, f);
    CollectMembership(buf, now, Render, |buf|, f);
    if f in buf && IsStale(f, now) {
      var k :| 0 <= k < |buf| && buf[k] == f;
    }
  }

  /** The frames among the first `n` under all three verdicts together. */
  function Verdicts(buf: seq<RgbFrame>, now: int, n: nat): multiset<RgbFrame>
    requires n <= |buf|
  {
    multiset(Collect(buf, now, Render, n)) + multiset(Collect(buf, now, Hold, n))
      + multiset(Collect(buf, now, Drop, n))
  }

  /** Appending a frame to one of three sequences adds it once to their joint multiset. */
  lemma UnionAppend(a: seq<RgbFrame>, b: seq<RgbFrame>, c: seq<RgbFrame>, x: RgbFrame)
    ensures multiset(a + [x]) + multiset(b) + multiset(c) == multiset(a) + multiset(b) + multiset(c) + multiset{x}
    ensures multiset(a) + multiset(b + [x]) + multiset(c) == multiset(a) + multiset(b) + multiset(c) + multiset{x}
    ensures multiset(a) + multiset(b) + multiset(c + [x]) == multiset(a) + multiset(b) + multiset(c) + multiset{x}
  {
  }

  /** One more frame lands under exactly one verdict. */
  lemma VerdictsStep(buf: seq<RgbFrame>, now: int, n: nat)
    requires 0 < n <= |buf|
    ensures Verdicts(buf, now, n) == Verdicts(buf, now, n - 1) + multiset{buf[n - 1]}
    ensures Verdicts(buf, now, n - 1) == multiset(buf[..n - 1]) ==> Verdicts(buf, now, n) == multiset(buf[..n])
  {
    PrefixMultiset(buf, n);
    var r, h, d := Collect(buf, now, Render, n - 1), Collect(buf, now, Hold, n - 1), Collect(buf, now, Drop, n - 1);
    var r', h', d' := Collect(buf, now, Render, n), Collect(buf, now, Hold, n), Collect(buf, now, Drop, n);
    var x := buf[n - 1];
    UnionAppend(r, h, d, x);
    match VerdictAt(buf, now, n - 1)
    case Render =>
      assert r' == r + [x] && h' == h && d' == d;
    case Hold =>
      assert r' == r && h' == h + [x] && d' == d;
    case Drop =>
      assert r' == r && h' == h && d' == d + [x];
  }

  /** The frames among the first `n` fall under the three verdicts, each exactly once. */
  lemma VerdictsCover(buf: seq<RgbFrame>, now: int, n: nat)
    requires n <= |buf|
    ensures Verdicts(buf, now, n) == multiset(buf[..n])
  {
    VerdictsEmpty(buf, now);
    for i := 0 to n
      invariant Verdicts(buf, now, i) == multiset(buf[..i])
    {
      VerdictsStep(buf, now, i + 1);
    }
  }

  /** Before the pass starts no frame has a verdict. */
  lemma VerdictsEmpty(buf: seq<RgbFrame>, now: int)
    ensures Verdicts(buf, now, 0) == multiset(buf[..0])
  {
    assert buf[..0] == [];
  }

  /** The first `n` frames are the first `n - 1` and frame `n - 1`. */
  lemma PrefixMultiset(buf: seq<RgbFrame>, n: nat)
    requires 0 < n <= |buf|
    ensures multiset(buf[..n]) == multiset(buf[..n - 1]) + multiset{buf[n - 1]}
  {
    assert buf[..n] == buf[..n - 1] + [buf[n - 1]];
  }

  /** A pass loses no frame: rendered, held and dropped frames together are the old buffer. */
  lemma PassPartitions(buf: seq<RgbFrame>, now: int)
    ensures multiset(ToRender(buf, now)) + multiset(Remaining(buf, now)) + multiset(Dropped(buf, now)) == multiset(buf)
  {
    VerdictsCover(buf, now, |buf|);
    assert buf[..|buf|] == buf;
  }

  /** The frames collected for any verdict keep the buffer's order, so a sorted buffer stays sorted. */
  lemma {:induction false} CollectSorted(buf: seq<RgbFrame>, now: int, v: Verdict, n: nat)
    requires n <= |buf| && Sorted(buf)
    ensures Sorted(Collect(buf, now, v, n))
  {
    if n > 0 {
      CollectSorted(buf, now, v, n - 1);
      var r := Collect(buf, now, v, n - 1);
      if VerdictAt(buf, now, n - 1) == v {
        CollectedNoLater(buf, now, v, n - 1);
        SortedAppend(r, buf[n - 1]);
      }
    }
  }

  /** In a sorted buffer, no frame collected from the first `n` is later than frame `n`. */
  lemma CollectedNoLater(buf: seq<RgbFrame>, now: int, v: Verdict, n: nat)
    requires n < |buf| && Sorted(buf)
    ensures forall t | 0 <= t < |Collect(buf, now, v, n)| :: Collect(buf, now, v, n)[t].timestamp <= buf[n].timestamp
  {
    var r := Collect(buf, now, v, n);
    forall t | 0 <= t < |r| ensures r[t].timestamp <= buf[n].timestamp {
      CollectMembership(buf, now, v, n, r[t]);
      var k :| 0 <= k < n && VerdictAt(buf, now, k) == v && buf[k] == r[t];
      assert buf[k].timestamp <= buf[n].timestamp;
    }
  }

  /** A frame no earlier than every frame of a sorted sequence may go at its end. */
  lemma SortedAppend(s: seq<RgbFrame>, f: RgbFrame)
    requires Sorted(s)
    requires forall t | 0 <= t < |s| :: s[t].timestamp <= f.timestamp
    ensures Sorted(s + [f])
  {
    var r := s + [f];
    forall a, b | 0 <= a < b < |r| ensures r[a].timestamp <= r[b].timestamp {
      assert r[a] == s[a];
    }
  }

  /** The boundary cases of the two windows. */
  lemma WindowBoundaries(f: RgbFrame, now: int)
    ensures f.timestamp == now ==> InTolerance(f, now)
    ensures f.timestamp == now + ToleranceMs || f.timestamp == now - ToleranceMs ==> InTolerance(f, now)
    ensures f.timestamp == now + ToleranceMs + 1 ==> !InTolerance(f, now) && !IsStale(f, now)
    ensures f.timestamp == now - (StaleMs + 1) ==> !InTolerance(f, now) && IsStale(f, now)
    ensures f.timestamp == now - StaleMs ==> !InTolerance(f, now) && !IsStale(f, now)
  {
  }
}
