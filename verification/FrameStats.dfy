/** Frame timing telemetry: the sync handshake, the lag average, and the
    rate-limited report of drawing on layers that H.264 owns. */
module FrameStats {
  import opened Bytes
  import opened Wire
  import opened InstructionStarts

  const MAX_PENDING: nat := 512
  const LAG_EWMA_ALPHA: real := 0.15
  const OVERPAINT_LOG_LIMIT: nat := 20
  const OVERPAINT_LOG_WINDOW: nat := 60_000_000_000
  const OVERPAINT_SUMMARY_INTERVAL: nat := 30_000_000_000

  /** A monotonic clock reading, in nanoseconds. */
  type Instant = nat

  /** `saturating_duration_since`. */
  function Since(now: Instant, earlier: Instant): nat { if now < earlier then 0 else now - earlier }

  // ---- the sync handshake: specification ----

  datatype PendingFrame = PendingFrame(timestamp: int, sentAt: Instant)

  datatype Sync = Sync(
    pending: seq<PendingFrame>,
    framesSent: nat,
    framesAcked: nat,
    unmatchedAcks: nat,
    maxOutstanding: nat,
    lastLag: nat,
    maxLag: nat,
    ewma: real)

  const IDLE := Sync([], 0, 0, 0, 0, 0, 0, 0.0)

  /** One frame sent: the oldest is evicted when the queue is full. */
  function Send(st: Sync, timestamp: int, now: Instant): Sync {
    var kept := if |st.pending| >= MAX_PENDING then st.pending[1..] else st.pending;
    var pending := kept + [PendingFrame(timestamp, now)];
    st.(framesSent := st.framesSent + 1,
        pending := pending,
        maxOutstanding := if |pending| > st.maxOutstanding then |pending| else st.maxOutstanding)
  }

  /** Position of the first pending frame with this timestamp, else the length. */
  function Position(pending: seq<PendingFrame>, timestamp: int): (i: nat)
    ensures i <= |pending| && (i < |pending| ==> pending[i].timestamp == timestamp)
    ensures forall k :: 0 <= k < i ==> pending[k].timestamp != timestamp
  {
    if pending == [] || pending[0].timestamp == timestamp then 0 else 1 + Position(pending[1..], timestamp)
  }

  /** Whole milliseconds, capped at what a `u32` holds. */
  function LagMs(now: Instant, sentAt: Instant): nat {
    var ms := Since(now, sentAt) / 1_000_000;
    if ms > U32_MAX then U32_MAX else ms
  }

  /** One ack: everything up to the first match is superseded. */
  function Ack(st: Sync, timestamp: int, now: Instant): Sync {
    var i := Position(st.pending, timestamp);
    if i == |st.pending| then st.(unmatchedAcks := st.unmatchedAcks + 1)
    else
      var lag := LagMs(now, st.pending[i].sentAt);
      st.(pending := st.pending[i + 1..],
          framesAcked := st.framesAcked + 1,
          lastLag := lag,
          maxLag := if lag > st.maxLag then lag else st.maxLag,
          ewma := if st.framesAcked == 0 then lag as real
                  else LAG_EWMA_ALPHA * (lag as real) + (1.0 - LAG_EWMA_ALPHA) * st.ewma)
  }

  function SendAll(st: Sync, timestamps: seq<int>, now: Instant): Sync {
    if timestamps == [] then st
    else Send(SendAll(st, timestamps[..|timestamps| - 1], now), timestamps[|timestamps| - 1], now)
  }

  function AckAll(st: Sync, timestamps: seq<int>, now: Instant): Sync {
    if timestamps == [] then st
    else Ack(AckAll(st, timestamps[..|timestamps| - 1], now), timestamps[|timestamps| - 1], now)
  }

  // ---- the sync handshake: every run ----

  datatype Event = Sent(timestamp: int, now: Instant) | Acked(timestamp: int, now: Instant)

  /** A run: the counters, and the full history they are meant to summarise. */
  datatype Run = Run(
    st: Sync,
    sent: seq<PendingFrame>,   // every frame ever sent
    matched: seq<int>,         // for each matched ack, which frame of `sent`
    lags: seq<nat>,            // for each matched ack, its lag
    acks: nat)                 // every ack received

  function Extend(r: Run, e: Event): Run {
    match e
    case Sent(timestamp, now) =>
      var st := Send(r.st, timestamp, now);
      r.(st := st, sent := r.sent + [PendingFrame(timestamp, now)])
    case Acked(timestamp, now) =>
      var st := Ack(r.st, timestamp, now);
      var i := Position(r.st.pending, timestamp);
      if i == |r.st.pending| then r.(st := st, acks := r.acks + 1)
      else
        r.(st := st, acks := r.acks + 1,
           matched := r.matched + [|r.sent| - |r.st.pending| + i],
           lags := r.lags + [LagMs(now, r.st.pending[i].sentAt)])
  }

  function Replay(events: seq<Event>): Run {
    if events == [] then Run(IDLE, [], [], [], 0)
    else Extend(Replay(events[..|events| - 1]), events[|events| - 1])
  }

  predicate StrictlyIncreasing(xs: seq<int>) { forall i, j :: 0 <= i < j < |xs| ==> xs[i] < xs[j] }

  /** Every lag lies between `lo` and `hi`. */
  predicate Bounds(lags: seq<nat>, lo: nat, hi: nat) { forall i :: 0 <= i < |lags| ==> lo <= lags[i] <= hi }

  /** The queue is the newest frames sent, at most 512 of them. */
  ghost predicate QueueSound(r: Run) {
    var n, p := |r.sent|, |r.st.pending|;
    && p <= n && p <= r.st.maxOutstanding <= MAX_PENDING
    && r.st.pending == r.sent[n - p..]
    && r.st.framesSent == n
  }

  /** Matched acks name distinct frames, in order, none of them still queued. */
  ghost predicate AcksSound(r: Run) {
    && r.st.framesAcked == |r.matched|
    && r.st.framesAcked + r.st.unmatchedAcks == r.acks
    && StrictlyIncreasing(r.matched)
    && forall i :: 0 <= i < |r.matched| ==> 0 <= r.matched[i] < |r.sent| - |r.st.pending|
  }

  /** The exponentially weighted mean of a series of lags. */
  function Average(lags: seq<nat>): real
    requires lags != []
  {
    var last := lags[|lags| - 1] as real;
    if |lags| == 1 then last else 0.15 * last + 0.85 * Average(lags[..|lags| - 1])
  }

  ghost predicate LagsSound(r: Run) {
    && (r.lags != [] ==> r.st.ewma == Average(r.lags))
    && r.st.framesAcked == |r.lags|
    && (r.lags == [] ==> r.st.maxLag == 0)
    && (r.lags != [] ==> r.st.maxLag in r.lags && r.st.lastLag == r.lags[|r.lags| - 1])
    && Bounds(r.lags, 0, r.st.maxLag)
  }

  ghost predicate Sound(r: Run) { QueueSound(r) && AcksSound(r) && LagsSound(r) }

  lemma QueueStaysSound(r: Run, e: Event)
    requires QueueSound(r)
    ensures QueueSound(Extend(r, e))
  {
    hide LagMs;
    var r' := Extend(r, e);
    assert r'.st.pending == r'.sent[|r'.sent| - |r'.st.pending|..];
  }

  lemma AcksStaySound(r: Run, e: Event)
    requires QueueSound(r) && AcksSound(r)
    ensures AcksSound(Extend(r, e))
  {
    hide LagMs;
  }

  lemma LagsStaySound(r: Run, e: Event)
    requires LagsSound(r)
    ensures LagsSound(Extend(r, e))
  {
    hide LagMs, Position;
    var r' := Extend(r, e);
    if r'.lags != r.lags {
      var lag := r'.lags[|r.lags|];
      assert r'.lags[..|r.lags|] == r.lags;
      if lag <= r.st.maxLag && r.lags != [] {
        var k :| 0 <= k < |r.lags| && r.lags[k] == r.st.maxLag;
        assert r'.lags[k] == r.st.maxLag;
      }
    }
  }

  lemma IdleQueueIsSound(r: Run)
    requires r == Run(IDLE, [], [], [], 0)
    ensures QueueSound(r)
  {
  }

  lemma IdleAcksAreSound(r: Run)
    requires r == Run(IDLE, [], [], [], 0)
    ensures AcksSound(r)
  {
  }

  lemma IdleLagsAreSound(r: Run)
    requires r == Run(IDLE, [], [], [], 0)
    ensures LagsSound(r)
  {
  }

  lemma {:induction false} EveryRunIsSound(events: seq<Event>)
    ensures Sound(Replay(events))
  {
    hide QueueSound, AcksSound, LagsSound, Extend;
    if events == [] {
      IdleQueueIsSound(Replay(events));
      IdleAcksAreSound(Replay(events));
      IdleLagsAreSound(Replay(events));
    } else {
      EveryRunIsSound(events[..|events| - 1]);
      var r, e := Replay(events[..|events| - 1]), events[|events| - 1];
      QueueStaysSound(r, e);
      AcksStaySound(r, e);
      LagsStaySound(r, e);
    }
  }

  lemma {:induction false} IncreasingFits(xs: seq<int>, bound: nat)
    requires StrictlyIncreasing(xs) && forall i :: 0 <= i < |xs| ==> 0 <= xs[i] < bound
    ensures |xs| <= bound
  {
    if xs != [] {
      var last := xs[|xs| - 1];
      IncreasingFits(xs[..|xs| - 1], last);
    }
  }

  /** The backlog after the first `k` events. */
  function Backlog(events: seq<Event>, k: nat): nat
    requires k <= |events|
  {
    |Replay(events[..k]).st.pending|
  }

  lemma PeakStep(r: Run, e: Event)
    requires QueueSound(r)
    ensures var before, after := r.st, Extend(r, e).st;
            && |after.pending| <= after.maxOutstanding
            && (after.maxOutstanding == before.maxOutstanding
                || before.maxOutstanding < after.maxOutstanding == |after.pending|)
  {
    hide LagMs;
  }

  /** `max_outstanding` is the largest backlog there has been: no moment of the
      run exceeds it, and some moment reached it. */
  lemma {:induction false} PeakIsTrue(events: seq<Event>)
    ensures var peak := Replay(events).st.maxOutstanding;
            && (forall k :: 0 <= k <= |events| ==> Backlog(events, k) <= peak)
            && (exists k :: 0 <= k <= |events| && Backlog(events, k) == peak)
  {
    hide Extend, AcksSound, LagsSound;
    var n := |events|;
    assert events[..n] == events;
    if n == 0 {
      assert Backlog(events, 0) == 0;
    } else {
      var before := events[..n - 1];
      EveryRunIsSound(before);
      PeakStep(Replay(before), events[n - 1]);
      PeakIsTrue(before);
      assert forall k :: 0 <= k < n ==> before[..k] == events[..k];
      assert forall k :: 0 <= k < n ==> Backlog(events, k) == Backlog(before, k);
      var k :| 0 <= k <= n - 1 && Backlog(before, k) == Replay(before).st.maxOutstanding;
      assert Backlog(events, k) == Replay(before).st.maxOutstanding;
      assert Backlog(events, n) == |Replay(events).st.pending|;
    }
  }

  /** If the ack was matched, pending is now exactly the frames sent after the
      one it matched. */
  ghost predicate Superseded(before: Run, after: Run, timestamp: int) {
    after.st.framesAcked > before.st.framesAcked ==>
      && after.matched != []
      && var k := after.matched[|after.matched| - 1];
      && 0 <= k < |before.sent| && before.sent[k].timestamp == timestamp
      && after.st.pending == before.sent[k + 1..]
  }

  lemma MatchedAck(r: Run, timestamp: int, now: Instant)
    requires QueueSound(r)
    ensures Superseded(r, Extend(r, Acked(timestamp, now)), timestamp)
  {
    hide LagMs;
    var i, base := Position(r.st.pending, timestamp), |r.sent| - |r.st.pending|;
    if i < |r.st.pending| {
      assert r.st.pending[i] == r.sent[base + i];
      assert r.st.pending[i + 1..] == r.sent[base + i + 1..];
    }
  }

  /** The frames sent, each with the clock at the time. */
  function Frames(events: seq<Event>): seq<PendingFrame> {
    if events == [] then []
    else
      var earlier, last := Frames(events[..|events| - 1]), events[|events| - 1];
      if last.Sent? then earlier + [PendingFrame(last.timestamp, last.now)] else earlier
  }

  /** The acks that found a pending frame, in order. */
  function MatchedBy(events: seq<Event>): (r: seq<Event>)
    ensures forall i :: 0 <= i < |r| ==> r[i].Acked?
  {
    if events == [] then []
    else
      var earlier, last := events[..|events| - 1], events[|events| - 1];
      var pending := Replay(earlier).st.pending;
      if last.Acked? && exists i :: 0 <= i < |pending| && pending[i].timestamp == last.timestamp
      then MatchedBy(earlier) + [last]
      else MatchedBy(earlier)
  }

  /** `lag` is the time from `sent` to `acked` in whole milliseconds, nothing if
      the clock went back, and at most what a `u32` holds. */
  predicate IsLag(lag: nat, sent: Instant, acked: Instant) {
    var elapsed := if acked < sent then 0 else acked - sent;
    || (lag <= 0xFFFF_FFFF && lag * 1_000_000 <= elapsed < (lag + 1) * 1_000_000)
    || (lag == 0xFFFF_FFFF && elapsed >= 0x1_0000_0000 * 1_000_000)
  }

  lemma LagMsIsLag(now: Instant, sentAt: Instant)
    ensures IsLag(LagMs(now, sentAt), sentAt, now)
  {
  }

  /** Each matched ack carries the timestamp of the frame it is counted for, and
      the lag recorded is the time between the two. */
  lemma {:induction false} MatchedFrames(events: seq<Event>)
    ensures var r, acks := Replay(events), MatchedBy(events);
            && r.sent == Frames(events)
            && |r.matched| == |r.lags| == |acks|
            && forall i :: 0 <= i < |acks| ==>
              && 0 <= r.matched[i] < |r.sent|
              && r.sent[r.matched[i]].timestamp == acks[i].timestamp
              && IsLag(r.lags[i], r.sent[r.matched[i]].sentAt, acks[i].now)
  {
    hide LagMs, LagsSound, Send, Ack, IsLag;
    if events != [] {
      var earlier, last := events[..|events| - 1], events[|events| - 1];
      MatchedFrames(earlier);
      EveryRunIsSound(earlier);
      var r := Replay(earlier);
      var i, base := Position(r.st.pending, last.timestamp), |r.sent| - |r.st.pending|;
      assert i < |r.st.pending| ==> r.st.pending[i] == r.sent[base + i];
      if i < |r.st.pending| {
        LagMsIsLag(last.now, r.st.pending[i].sentAt);
      }
    }
  }

  /** How many of the sent frames are settled: everything up to the last match. */
  function Settled(r: Run): int { if r.matched == [] then 0 else r.matched[|r.matched| - 1] + 1 }

  /** Nothing is evicted before its time: pending are all frames sent since the
      last match, or the newest 512 of them. */
  ghost predicate QueueFull(r: Run) {
    var open := |r.sent| - Settled(r);
    |r.st.pending| == if open <= 512 then open else 512
  }

  lemma QueueStaysFull(r: Run, e: Event)
    requires QueueSound(r) && AcksSound(r) && QueueFull(r)
    ensures QueueFull(Extend(r, e))
  {
    hide LagMs;
  }

  lemma IdleIsFull()
    ensures QueueFull(Run(IDLE, [], [], [], 0))
  {
  }

  lemma {:induction false} NothingEvictedEarly(events: seq<Event>)
    ensures QueueFull(Replay(events))
  {
    hide QueueSound, AcksSound, LagsSound, Extend, QueueFull;
    if events == [] {
      assert QueueFull(Replay(events)) by { IdleIsFull(); }
    } else {
      var earlier := events[..|events| - 1];
      NothingEvictedEarly(earlier);
      EveryRunIsSound(earlier);
      QueueStaysFull(Replay(earlier), events[|events| - 1]);
    }
  }

  /** In every run the pending frames are the newest sent ones, all since the last
      match unless those are more than 512; acked plus outstanding never exceeds
      sent; no frame is acked twice, nor while still pending, and each ack names
      the frame it is counted for; every ack is counted once; and the peak is the
      largest backlog of any moment. */
  lemma HandshakeAccounting(events: seq<Event>)
    ensures var r := Replay(events);
            var outstanding := |r.st.pending|;
            && outstanding <= MAX_PENDING && outstanding <= |r.sent|
            && r.sent == Frames(events) && r.st.pending == r.sent[|r.sent| - outstanding..]
            && (outstanding == |r.sent| - Settled(r) || outstanding == 512 < |r.sent| - Settled(r))
            && r.st.framesSent == |r.sent|
            && r.st.framesAcked + outstanding <= r.st.framesSent
            && StrictlyIncreasing(r.matched)
            && |r.matched| == |MatchedBy(events)| == r.st.framesAcked
            && (forall i :: 0 <= i < |r.matched| ==>
                  && 0 <= r.matched[i] < |r.sent| - outstanding
                  && r.sent[r.matched[i]].timestamp == MatchedBy(events)[i].timestamp)
            && r.st.framesAcked + r.st.unmatchedAcks == r.acks
            && (forall k :: 0 <= k <= |events| ==> Backlog(events, k) <= r.st.maxOutstanding)
            && (exists k :: 0 <= k <= |events| && Backlog(events, k) == r.st.maxOutstanding)
  {
    hide Replay, LagsSound, StrictlyIncreasing, Backlog, MatchedBy, IsLag, Frames;
    EveryRunIsSound(events);
    NothingEvictedEarly(events);
    MatchedFrames(events);
    PeakIsTrue(events);
    var r := Replay(events);
    IncreasingFits(r.matched, |r.sent| - |r.st.pending|);
  }

  lemma AckSupersedes(events: seq<Event>, timestamp: int, now: Instant)
    ensures Superseded(Replay(events), Replay(events + [Acked(timestamp, now)]), timestamp)
  {
    hide Extend, QueueSound, AcksSound, LagsSound, Superseded;
    var all := events + [Acked(timestamp, now)];
    assert all[..|all| - 1] == events;
    EveryRunIsSound(events);
    MatchedAck(Replay(events), timestamp, now);
  }

  lemma Mix(x: real, y: real, lo: real, hi: real)
    requires lo <= x <= hi && lo <= y <= hi
    ensures lo <= LAG_EWMA_ALPHA * x + (1.0 - LAG_EWMA_ALPHA) * y <= hi
  {
  }

  lemma {:induction false} AverageIsWithin(lags: seq<nat>, lo: nat, hi: nat)
    requires lags != [] && Bounds(lags, lo, hi)
    ensures lo as real <= Average(lags) <= hi as real
  {
    var last := lags[|lags| - 1];
    assert lo <= last <= hi;
    if |lags| > 1 {
      AverageIsWithin(lags[..|lags| - 1], lo, hi);
      Mix(last as real, Average(lags[..|lags| - 1]), lo as real, hi as real);
    }
  }

  /** In every run the lag figures are those of the matched acks: the last, the
      largest, and the weighted mean, which never leaves the range of lags seen. */
  lemma LagFigures(events: seq<Event>, lo: nat, hi: nat)
    requires Replay(events).lags != [] && Bounds(Replay(events).lags, lo, hi)
    ensures var r := Replay(events);
            && r.st.lastLag == r.lags[|r.lags| - 1]
            && r.st.maxLag in r.lags && Bounds(r.lags, 0, r.st.maxLag)
            && r.st.ewma == Average(r.lags) && lo as real <= r.st.ewma <= hi as real
  {
    hide Replay, QueueSound, AcksSound, Average;
    EveryRunIsSound(events);
    AverageIsWithin(Replay(events).lags, lo, hi);
  }

  // ---- overpaint: specification ----

  datatype DrawOp = Img | Copy | Rect | Cfill | Size | Dispose

  datatype Draw = Draw(op: DrawOp, layer: int, args: seq<Text>)

  datatype H264Layer = H264Layer(frames: nat, keyframes: nat, lastFrame: Instant)

  type Layers = map<int, H264Layer>

  datatype LogLine =
    | Detail(draw: Draw, layer: H264Layer, sinceMs: nat)
    | Summary(counts: map<DrawOp, nat>)

  datatype Overpaint = Overpaint(
    counts: map<DrawOp, nat>,
    total: nat,
    loggedInWindow: nat,
    windowStarted: Option<Instant>,
    lastSummary: Option<Instant>,
    summarisedTotal: nat)

  const UNPAINTED := Overpaint(map[], 0, 0, None, None, 0)

  function CountOf(counts: map<DrawOp, nat>, op: DrawOp): nat { if op in counts then counts[op] else 0 }

  /** A detail window opens at the first overpaint after the last one closed. */
  function OpenWindow(o: Overpaint, now: Instant): Overpaint {
    if o.windowStarted.Some? && Since(now, o.windowStarted.value) < OVERPAINT_LOG_WINDOW then o
    else o.(windowStarted := Some(now), loggedInWindow := 0)
  }

  function NoteDraw(o: Overpaint, layers: Layers, d: Draw, now: Instant): (Overpaint, seq<LogLine>) {
    if d.layer !in layers then (o, [])
    else
      var counted := o.(total := o.total + 1, counts := o.counts[d.op := CountOf(o.counts, d.op) + 1]);
      var w := OpenWindow(counted, now);
      if w.loggedInWindow >= OVERPAINT_LOG_LIMIT then (w, [])
      else
        var layer := layers[d.layer];
        (w.(loggedInWindow := w.loggedInWindow + 1), [Detail(d, layer, Since(now, layer.lastFrame) / 1_000_000)])
  }

  function NoteDraws(o: Overpaint, layers: Layers, draws: seq<Draw>, now: Instant): (Overpaint, seq<LogLine>) {
    if draws == [] then (o, [])
    else
      var (o1, l1) := NoteDraws(o, layers, draws[..|draws| - 1], now);
      var (o2, l2) := NoteDraw(o1, layers, draws[|draws| - 1], now);
      (o2, l1 + l2)
  }

  function Summarise(o: Overpaint, now: Instant): (Overpaint, seq<LogLine>) {
    var due := o.lastSummary == None || Since(now, o.lastSummary.value) >= OVERPAINT_SUMMARY_INTERVAL;
    if due && o.total > o.summarisedTotal then
      (o.(lastSummary := Some(now), summarisedTotal := o.total), [Summary(o.counts)])
    else (o, [])
  }

  /** `note_overpaint`. */
  function NoteOverpaint(o: Overpaint, layers: Layers, draws: seq<Draw>, now: Instant): (Overpaint, seq<LogLine>) {
    var (o1, l1) := NoteDraws(o, layers, draws, now);
    var (o2, l2) := Summarise(o1, now);
    (o2, l1 + l2)
  }

  // ---- overpaint: every run ----

  /** One chunk as the overpaint report sees it. */
  datatype Chunk = Chunk(layers: Layers, draws: seq<Draw>, now: Instant)

  /** A run: the bookkeeping, every line emitted, the draws that hit an H.264
      layer, and when the first of them did. */
  datatype PaintRun = PaintRun(o: Overpaint, logs: seq<LogLine>, hits: nat, first: Option<Instant>)

  function Hits(layers: Layers, draws: seq<Draw>): nat {
    if draws == [] then 0
    else Hits(layers, draws[..|draws| - 1]) + if draws[|draws| - 1].layer in layers then 1 else 0
  }

  function PaintReplay(chunks: seq<Chunk>): PaintRun {
    if chunks == [] then PaintRun(UNPAINTED, [], 0, None)
    else
      var r, c := PaintReplay(chunks[..|chunks| - 1]), chunks[|chunks| - 1];
      var (o, lines) := NoteOverpaint(r.o, c.layers, c.draws, c.now);
      var hits := r.hits + Hits(c.layers, c.draws);
      PaintRun(o, r.logs + lines, hits, if r.first == None && hits > 0 then Some(c.now) else r.first)
  }

  ghost predicate ClockMovesForward(chunks: seq<Chunk>) {
    forall i, j :: 0 <= i < j < |chunks| ==> chunks[i].now <= chunks[j].now
  }

  function Details(logs: seq<LogLine>): (n: nat)
    ensures n <= |logs|
  {
    if logs == [] then 0 else Details(logs[..|logs| - 1]) + if logs[|logs| - 1].Detail? then 1 else 0
  }

  function Summaries(logs: seq<LogLine>): nat { |logs| - Details(logs) }

  lemma {:induction false} DetailsConcat(a: seq<LogLine>, b: seq<LogLine>)
    ensures Details(a + b) == Details(a) + Details(b)
  {
    if b == [] {
      assert a + b == a;
    } else {
      var b' := b[..|b| - 1];
      assert (a + b)[..|a + b| - 1] == a + b';
      DetailsConcat(a, b');
    }
  }

  function SumOf(c: map<DrawOp, nat>): nat {
    CountOf(c, Img) + CountOf(c, Copy) + CountOf(c, Rect) + CountOf(c, Cfill) + CountOf(c, Size) + CountOf(c, Dispose)
  }

  /** Nothing is dropped early: the first 20 overpaints are all reported. */
  ghost predicate NotSilent(o: Overpaint, details: nat) {
    o.loggedInWindow <= details <= o.total && (o.total <= OVERPAINT_LOG_LIMIT ==> details == o.total)
  }

  /** The detail limiter with `details` lines out, the first overpaint at `t0`
      and the clock at `now`: at most 20 per window begun since `t0`. */
  ghost predicate Limited(o: Overpaint, details: nat, t0: Instant, now: Instant) {
    && o.windowStarted.Some? && t0 <= o.windowStarted.value <= now
    && o.loggedInWindow <= OVERPAINT_LOG_LIMIT
    && details <= OVERPAINT_LOG_LIMIT * ((o.windowStarted.value - t0) / OVERPAINT_LOG_WINDOW) + o.loggedInWindow
  }

  lemma LaterWindow(t0: nat, w: nat, now: nat)
    requires t0 <= w && w + OVERPAINT_LOG_WINDOW <= now
    ensures (now - t0) / OVERPAINT_LOG_WINDOW >= (w - t0) / OVERPAINT_LOG_WINDOW + 1
  {
  }

  lemma WindowStaysLimited(o: Overpaint, details: nat, t0: Instant, now: Instant)
    requires t0 <= now && (Limited(o, details, t0, now) || (o.windowStarted == None && details == 0))
    ensures Limited(OpenWindow(o, now), details, t0, now)
  {
    if o.windowStarted.Some? && now - o.windowStarted.value >= OVERPAINT_LOG_WINDOW {
      LaterWindow(t0, o.windowStarted.value, now);
    }
  }

  lemma OthersUntouched(c: map<DrawOp, nat>, op: DrawOp)
    ensures forall o :: CountOf(c[op := CountOf(c, op) + 1], o) == CountOf(c, o) + if o == op then 1 else 0
  {
  }

  lemma CountedOnce(c: map<DrawOp, nat>, op: DrawOp)
    ensures SumOf(c[op := CountOf(c, op) + 1]) == SumOf(c) + 1
  {
    hide CountOf;
    OthersUntouched(c, op);
  }

  lemma DrawStaysLimited(o: Overpaint, details: nat, t0: Instant, layers: Layers, d: Draw, now: Instant)
    requires t0 <= now && (Limited(o, details, t0, now) || (o.windowStarted == None && details == 0))
    requires NotSilent(o, details)
    ensures var (o', lines) := NoteDraw(o, layers, d, now);
            && NotSilent(o', details + Details(lines))
            && (d.layer in layers ==> Limited(o', details + Details(lines), t0, now))
            && (d.layer !in layers ==> o' == o && lines == [])
            && o'.total == o.total + (if d.layer in layers then 1 else 0)
            && SumOf(o'.counts) == SumOf(o.counts) + (if d.layer in layers then 1 else 0)
            && o'.lastSummary == o.lastSummary && o'.summarisedTotal == o.summarisedTotal
            && Details(lines) == |lines|
  {
    hide SumOf;
    if d.layer in layers {
      var counted := o.(total := o.total + 1, counts := o.counts[d.op := CountOf(o.counts, d.op) + 1]);
      CountedOnce(o.counts, d.op);
      WindowStaysLimited(counted, details, t0, now);
      var (o', lines) := NoteDraw(o, layers, d, now);
      assert lines == [] || lines[..0] == [];
    }
  }

  lemma {:induction false} DrawsStayLimited(o: Overpaint, details: nat, t0: Instant, layers: Layers,
                                             draws: seq<Draw>, now: Instant)
    requires t0 <= now && (Limited(o, details, t0, now) || (o.windowStarted == None && details == 0))
    requires NotSilent(o, details)
    ensures var (o', lines) := NoteDraws(o, layers, draws, now);
            && NotSilent(o', details + Details(lines))
            && (Limited(o, details, t0, now) || Hits(layers, draws) > 0
                ==> Limited(o', details + Details(lines), t0, now))
            && (Hits(layers, draws) == 0 ==> o' == o && lines == [])
            && o'.total == o.total + Hits(layers, draws)
            && SumOf(o'.counts) == SumOf(o.counts) + Hits(layers, draws)
            && o'.lastSummary == o.lastSummary && o'.summarisedTotal == o.summarisedTotal
            && Details(lines) == |lines|
    decreases |draws|
  {
    hide NoteDraw, Limited, SumOf, NotSilent;
    if draws != [] {
      var before, last := draws[..|draws| - 1], draws[|draws| - 1];
      DrawsStayLimited(o, details, t0, layers, before, now);
      var (o1, l1) := NoteDraws(o, layers, before, now);
      var (_, l2) := NoteDraw(o1, layers, last, now);
      DetailsConcat(l1, l2);
      DrawStaysLimited(o1, details + Details(l1), t0, layers, last, now);
    }
  }

  /** The summary limiter: one at `t0`, then one per full interval. */
  ghost predicate Spaced(o: Overpaint, summaries: nat, t0: Instant, now: Instant) {
    && o.lastSummary.Some? && t0 <= o.lastSummary.value <= now
    && 1 <= summaries <= (o.lastSummary.value - t0) / OVERPAINT_SUMMARY_INTERVAL + 1
  }

  ghost predicate PaintSound(r: PaintRun, now: Instant) {
    && r.o.total == r.hits == SumOf(r.o.counts)
    && r.o.summarisedTotal <= r.o.total
    && NotSilent(r.o, Details(r.logs))
    && (r.first == None <==> r.hits == 0)
    && (r.first == None ==> r.o.windowStarted == None && r.o.lastSummary == None && r.logs == [])
    && (r.first.Some? ==>
      && r.first.value <= now
      && Limited(r.o, Details(r.logs), r.first.value, now)
      && Spaced(r.o, Summaries(r.logs), r.first.value, now))
  }

  lemma LaterSummary(t0: nat, last: nat, now: nat)
    requires t0 <= last && last + OVERPAINT_SUMMARY_INTERVAL <= now
    ensures (now - t0) / OVERPAINT_SUMMARY_INTERVAL >= (last - t0) / OVERPAINT_SUMMARY_INTERVAL + 1
  {
  }

  lemma LaterClock(r: PaintRun, t: Instant, now: Instant)
    requires PaintSound(r, t) && t <= now
    ensures PaintSound(r, now)
  {
  }

  lemma SummaryStaysSpaced(o: Overpaint, summaries: nat, t0: Instant, now: Instant)
    requires t0 <= now && o.summarisedTotal <= o.total
    requires Spaced(o, summaries, t0, now) || (o.lastSummary == None && summaries == 0 && o.summarisedTotal < o.total)
    ensures var (o', lines) := Summarise(o, now);
            && Spaced(o', summaries + |lines|, t0, now)
            && Details(lines) == 0
            && o' == o.(lastSummary := o'.lastSummary, summarisedTotal := o'.summarisedTotal)
            && o'.summarisedTotal <= o'.total
  {
    var (o', lines) := Summarise(o, now);
    assert lines == [] || lines[..0] == [];
    if o.lastSummary.Some? && now - o.lastSummary.value >= OVERPAINT_SUMMARY_INTERVAL {
      LaterSummary(t0, o.lastSummary.value, now);
    }
  }

  lemma EmptyLog()
    ensures Details([]) == 0
  {
  }

  lemma NothingToSummarise(o: Overpaint, now: Instant)
    requires o.total <= o.summarisedTotal
    ensures Summarise(o, now) == (o, [])
  {
  }

  lemma ChunkIsSound(r: PaintRun, c: Chunk)
    requires PaintSound(r, c.now)
    ensures var (o, lines) := NoteOverpaint(r.o, c.layers, c.draws, c.now);
            var hits := r.hits + Hits(c.layers, c.draws);
            var first := if r.first == None && hits > 0 then Some(c.now) else r.first;
            PaintSound(PaintRun(o, r.logs + lines, hits, first), c.now)
  {
    hide NoteDraws, Summarise, SumOf, Details, Hits;
    var t0 := if r.first == None then c.now else r.first.value;
    var (o1, l1) := NoteDraws(r.o, c.layers, c.draws, c.now);
    var (o2, l2) := Summarise(o1, c.now);
    EmptyLog();
    DrawsStayLimited(r.o, Details(r.logs), t0, c.layers, c.draws, c.now);
    DetailsConcat(l1, l2);
    DetailsConcat(r.logs, l1 + l2);
    if r.hits + Hits(c.layers, c.draws) > 0 {
      SummaryStaysSpaced(o1, Summaries(r.logs), t0, c.now);
    } else {
      NothingToSummarise(o1, c.now);
    }
  }

  lemma {:induction false} EveryPaintRunIsSound(chunks: seq<Chunk>)
    requires ClockMovesForward(chunks)
    ensures PaintSound(PaintReplay(chunks), if chunks == [] then 0 else chunks[|chunks| - 1].now)
  {
    hide NoteOverpaint, Hits;
    if chunks != [] {
      var before, c := chunks[..|chunks| - 1], chunks[|chunks| - 1];
      EveryPaintRunIsSound(before);
      LaterClock(PaintReplay(before), if before == [] then 0 else before[|before| - 1].now, c.now);
      ChunkIsSound(PaintReplay(before), c);
    }
  }

  /** Over any run with a clock that never goes back, T after the first
      overpaint, at most 20 detail lines per started minute and one summary per
      started half minute have gone out, while the total is the number of draws
      that hit an H.264 layer and the sum of the per-opcode counts. No episode is
      silent: the first 20 hits are all detailed, and there is a summary. */
  lemma OverpaintLoggingIsBounded(chunks: seq<Chunk>)
    requires chunks != [] && ClockMovesForward(chunks)
    ensures var r := PaintReplay(chunks);
            var now := chunks[|chunks| - 1].now;
            && r.o.total == r.hits == SumOf(r.o.counts)
            && (r.hits == 0 ==> r.first == None && r.logs == [])
            && (r.hits <= 20 ==> Details(r.logs) == r.hits)
            && (r.hits > 0 ==> r.first.Some? && Summaries(r.logs) >= 1)
            && (r.first.Some? ==>
              && r.first.value <= now
              && var t := now - r.first.value;
              && Details(r.logs) <= 20 * (t / 60_000_000_000 + 1)
              && Summaries(r.logs) <= t / 30_000_000_000 + 1)
  {
    hide PaintReplay, SumOf, Details;
    EveryPaintRunIsSound(chunks);
    var r, now := PaintReplay(chunks), chunks[|chunks| - 1].now;
    if r.first.Some? {
      var t0, w, last := r.first.value, r.o.windowStarted.value, r.o.lastSummary.value;
      assert (w - t0) / OVERPAINT_LOG_WINDOW <= (now - t0) / OVERPAINT_LOG_WINDOW;
      assert (last - t0) / OVERPAINT_SUMMARY_INTERVAL <= (now - t0) / OVERPAINT_SUMMARY_INTERVAL;
    }
  }

  // ---- overpaint: nothing is left out without need ----

  /** The lines the last chunk brought. */
  function LastLines(chunks: seq<Chunk>): seq<LogLine>
    requires chunks != []
  {
    var c := chunks[|chunks| - 1];
    NoteOverpaint(PaintReplay(chunks[..|chunks| - 1]).o, c.layers, c.draws, c.now).1
  }

  function Repeat(t: Instant, n: nat): (r: seq<Instant>)
    ensures |r| == n && forall i :: 0 <= i < n ==> r[i] == t
  {
    seq(n, _ => t)
  }

  /** When each detail line went out. */
  function DetailTimes(chunks: seq<Chunk>): seq<Instant> {
    if chunks == [] then []
    else DetailTimes(chunks[..|chunks| - 1]) + Repeat(chunks[|chunks| - 1].now, Details(LastLines(chunks)))
  }

  /** A summary: when, and how many hits there had been. */
  datatype Point = Point(at: Instant, hits: nat)

  function SummaryPoints(chunks: seq<Chunk>): seq<Point> {
    if chunks == [] then []
    else
      var earlier := SummaryPoints(chunks[..|chunks| - 1]);
      if Summaries(LastLines(chunks)) == 0 then earlier
      else earlier + [Point(chunks[|chunks| - 1].now, PaintReplay(chunks).hits)]
  }

  /** The lines of the current window are the newest ones, none older than it. */
  ghost predicate InWindow(o: Overpaint, times: seq<Instant>) {
    && o.loggedInWindow <= |times|
    && (o.windowStarted.Some? ==>
          forall i :: |times| - o.loggedInWindow <= i < |times| ==> times[i] >= o.windowStarted.value)
    && (o.windowStarted.None? ==> o.loggedInWindow == 0)
  }

  lemma WindowOpens(o: Overpaint, times: seq<Instant>, now: Instant)
    requires InWindow(o, times)
    ensures var w := OpenWindow(o, now);
            InWindow(w, times) && w.windowStarted.Some? && now < w.windowStarted.value + OVERPAINT_LOG_WINDOW
  {
  }

  /** After these draws the window is kept track of; and if one of them got no
      line, 20 are out in a window not yet over. */
  ghost predicate Busy(o: Overpaint, now: Instant) {
    && o.loggedInWindow >= OVERPAINT_LOG_LIMIT
    && o.windowStarted.Some? && now < o.windowStarted.value + OVERPAINT_LOG_WINDOW
  }

  lemma SameWindowSameLines(o: Overpaint, o': Overpaint, times: seq<Instant>)
    requires o'.loggedInWindow == o.loggedInWindow && o'.windowStarted == o.windowStarted
    ensures InWindow(o, times) ==> InWindow(o', times)
  {
  }

  lemma OpenKeepsBusy(o: Overpaint, counted: Overpaint, now: Instant)
    requires counted.loggedInWindow == o.loggedInWindow && counted.windowStarted == o.windowStarted
    requires o.windowStarted.Some? ==> o.windowStarted.value <= now
    ensures Busy(o, now) ==> OpenWindow(counted, now) == counted
    ensures OpenWindow(counted, now).windowStarted.Some? && OpenWindow(counted, now).windowStarted.value <= now
  {
  }

  lemma OneDetail(line: LogLine)
    ensures Details([line]) == if line.Detail? then 1 else 0
  {
    assert [line][..0] == [];
  }

  lemma LineInWindow(w: Overpaint, times: seq<Instant>, now: Instant)
    requires InWindow(w, times) && w.windowStarted.Some? && w.windowStarted.value <= now
    ensures InWindow(w.(loggedInWindow := w.loggedInWindow + 1), times + Repeat(now, 1))
  {
  }

  lemma DrawInWindow(o: Overpaint, times: seq<Instant>, layers: Layers, d: Draw, now: Instant)
    requires InWindow(o, times) && (o.windowStarted.Some? ==> o.windowStarted.value <= now)
    ensures var (o', lines) := NoteDraw(o, layers, d, now);
            && InWindow(o', times + Repeat(now, Details(lines)))
            && (o'.windowStarted.Some? ==> o'.windowStarted.value <= now)
            && (Busy(o, now) ==> Busy(o', now))
            && (d.layer in layers ==> Details(lines) == 1 || (Details(lines) == 0 && Busy(o', now)))
            && (d.layer !in layers ==> Details(lines) == 0)
  {
    hide InWindow, OpenWindow, Details;
    var (o', lines) := NoteDraw(o, layers, d, now);
    EmptyLog();
    assert times + Repeat(now, 0) == times;
    if d.layer in layers {
      var counted := o.(total := o.total + 1, counts := o.counts[d.op := CountOf(o.counts, d.op) + 1]);
      assert InWindow(counted, times) by { SameWindowSameLines(o, counted, times); }
      WindowOpens(counted, times, now);
      var w := OpenWindow(counted, now);
      OpenKeepsBusy(o, counted, now);
      if w.loggedInWindow < OVERPAINT_LOG_LIMIT {
        OneDetail(lines[0]);
        LineInWindow(w, times, now);
        SameWindowSameLines(w.(loggedInWindow := w.loggedInWindow + 1), o', times + Repeat(now, 1));
      }
    }
  }

  lemma {:induction false} DrawsInWindow(o: Overpaint, times: seq<Instant>, layers: Layers, draws: seq<Draw>,
                                          now: Instant)
    requires InWindow(o, times) && (o.windowStarted.Some? ==> o.windowStarted.value <= now)
    ensures var (o', lines) := NoteDraws(o, layers, draws, now);
            && InWindow(o', times + Repeat(now, Details(lines)))
            && (o'.windowStarted.Some? ==> o'.windowStarted.value <= now)
            && Details(lines) <= Hits(layers, draws)
            && (Details(lines) < Hits(layers, draws) ==> Busy(o', now))
    decreases |draws|
  {
    hide NoteDraw, InWindow, Busy, Details;
    EmptyLog();
    if draws == [] {
      assert times + Repeat(now, 0) == times;
    } else {
      var before, last := draws[..|draws| - 1], draws[|draws| - 1];
      DrawsInWindow(o, times, layers, before, now);
      var (o1, l1) := NoteDraws(o, layers, before, now);
      var (_, l2) := NoteDraw(o1, layers, last, now);
      var times1 := times + Repeat(now, Details(l1));
      DrawInWindow(o1, times1, layers, last, now);
      DetailsConcat(l1, l2);
      assert times1 + Repeat(now, Details(l2)) == times + Repeat(now, Details(l1 + l2));
    }
  }

  lemma SummariseKeepsWindow(o: Overpaint, now: Instant)
    ensures var (o', lines) := Summarise(o, now);
            && o'.loggedInWindow == o.loggedInWindow && o'.windowStarted == o.windowStarted
            && Details(lines) == 0 && |lines| <= 1
  {
    var (_, lines) := Summarise(o, now);
    assert lines == [] || lines[..0] == [];
  }

  lemma SameWindowSameBusy(o: Overpaint, o': Overpaint, now: Instant)
    requires o'.loggedInWindow == o.loggedInWindow && o'.windowStarted == o.windowStarted
    ensures Busy(o, now) ==> Busy(o', now)
  {
  }

  lemma {:induction false} TimesInWindow(chunks: seq<Chunk>)
    requires ClockMovesForward(chunks)
    ensures var r := PaintReplay(chunks);
            && InWindow(r.o, DetailTimes(chunks))
            && (r.o.windowStarted.Some? ==> chunks != [] && r.o.windowStarted.value <= chunks[|chunks| - 1].now)
    ensures chunks != [] ==>
              var c := chunks[|chunks| - 1];
              Details(LastLines(chunks)) < Hits(c.layers, c.draws) ==> Busy(PaintReplay(chunks).o, c.now)
  {
    hide NoteDraws, Summarise, Hits, Details, Busy;
    if chunks != [] {
      var before, c := chunks[..|chunks| - 1], chunks[|chunks| - 1];
      TimesInWindow(before);
      var o, times := PaintReplay(before).o, DetailTimes(before);
      DrawsInWindow(o, times, c.layers, c.draws, c.now);
      var (o1, l1) := NoteDraws(o, c.layers, c.draws, c.now);
      SummariseKeepsWindow(o1, c.now);
      var (_, l2) := Summarise(o1, c.now);
      DetailsConcat(l1, l2);
      assert Details(LastLines(chunks)) == Details(l1);
      SameWindowSameBusy(o1, PaintReplay(chunks).o, c.now);
    }
  }

  /** A draw that hits an H.264 layer goes without its line only if 20 lines have
      gone out within the last minute. */
  lemma DroppedOnlyWhenBusy(chunks: seq<Chunk>)
    requires chunks != [] && ClockMovesForward(chunks)
    ensures var c, times := chunks[|chunks| - 1], DetailTimes(chunks);
            Details(LastLines(chunks)) < Hits(c.layers, c.draws) ==>
              |times| >= 20 && forall i :: |times| - 20 <= i < |times| ==> c.now - times[i] < 60_000_000_000
  {
    hide PaintReplay, DetailTimes, LastLines, Details, Hits;
    TimesInWindow(chunks);
  }

  /** The state knows the last summary, and what it covered. */
  ghost predicate Summarised(r: PaintRun, points: seq<Point>, now: Instant) {
    && (points == [] ==> r.o.lastSummary == None && r.o.summarisedTotal == 0)
    && (points != [] ==> var p := points[|points| - 1];
          r.o.lastSummary == Some(p.at) && r.o.summarisedTotal == p.hits && p.at <= now)
    && r.o.summarisedTotal <= r.o.total == r.hits
  }

  lemma DrawsKeepSummary(o: Overpaint, layers: Layers, draws: seq<Draw>, now: Instant)
    ensures var (o', lines) := NoteDraws(o, layers, draws, now);
            && o'.lastSummary == o.lastSummary && o'.summarisedTotal == o.summarisedTotal
            && o'.total == o.total + Hits(layers, draws) && Details(lines) == |lines|
    decreases |draws|
  {
    if draws != [] {
      var before, last := draws[..|draws| - 1], draws[|draws| - 1];
      DrawsKeepSummary(o, layers, before, now);
      var (o1, l1) := NoteDraws(o, layers, before, now);
      var (_, l2) := NoteDraw(o1, layers, last, now);
      DetailsConcat(l1, l2);
      assert l2 == [] || l2[..0] == [];
    }
  }

  lemma {:induction false} SummariesAreDue(chunks: seq<Chunk>)
    requires ClockMovesForward(chunks)
    ensures Summarised(PaintReplay(chunks), SummaryPoints(chunks), if chunks == [] then 0 else chunks[|chunks| - 1].now)
    ensures chunks != [] ==>
              var now, points := chunks[|chunks| - 1].now, SummaryPoints(chunks);
              PaintReplay(chunks).hits > (if points == [] then 0 else points[|points| - 1].hits) ==>
                points != [] && now - points[|points| - 1].at < 30_000_000_000
    ensures forall i :: 0 <= i < |SummaryPoints(chunks)| - 1 ==>
              SummaryPoints(chunks)[i].hits < SummaryPoints(chunks)[i + 1].hits
  {
    hide NoteDraws, Hits, Details;
    if chunks != [] {
      var before, c := chunks[..|chunks| - 1], chunks[|chunks| - 1];
      SummariesAreDue(before);
      var r := PaintReplay(before);
      DrawsKeepSummary(r.o, c.layers, c.draws, c.now);
      var (o1, l1) := NoteDraws(r.o, c.layers, c.draws, c.now);
      SummariseKeepsWindow(o1, c.now);
      var (_, l2) := Summarise(o1, c.now);
      DetailsConcat(l1, l2);
      assert Summaries(LastLines(chunks)) == |l2|;
    }
  }

  // ---- overpaint: what the lines and counts say ----

  /** The hits of one operation. */
  function HitsBy(layers: Layers, draws: seq<Draw>, op: DrawOp): nat {
    if draws == [] then 0
    else
      var last := draws[|draws| - 1];
      HitsBy(layers, draws[..|draws| - 1], op) + if last.layer in layers && last.op == op then 1 else 0
  }

  function RunHitsBy(chunks: seq<Chunk>, op: DrawOp): nat {
    if chunks == [] then 0
    else
      var c := chunks[|chunks| - 1];
      RunHitsBy(chunks[..|chunks| - 1], op) + HitsBy(c.layers, c.draws, op)
  }

  lemma {:induction false} DrawsAreCounted(o: Overpaint, layers: Layers, draws: seq<Draw>, now: Instant, op: DrawOp)
    ensures CountOf(NoteDraws(o, layers, draws, now).0.counts, op) == CountOf(o.counts, op) + HitsBy(layers, draws, op)
    decreases |draws|
  {
    if draws != [] {
      DrawsAreCounted(o, layers, draws[..|draws| - 1], now, op);
    }
  }

  /** In every run the count of each operation is its hits. */
  lemma {:induction false} CountsAreHits(chunks: seq<Chunk>, op: DrawOp)
    ensures CountOf(PaintReplay(chunks).o.counts, op) == RunHitsBy(chunks, op)
  {
    hide NoteDraws, Hits;
    if chunks != [] {
      var c := chunks[|chunks| - 1];
      CountsAreHits(chunks[..|chunks| - 1], op);
      DrawsAreCounted(PaintReplay(chunks[..|chunks| - 1]).o, c.layers, c.draws, c.now, op);
    }
  }

  /** A detail line is about a draw of the chunk that hit a layer, and gives that
      layer's figures and the whole milliseconds since its last frame; a summary
      gives the counts. */
  ghost predicate True(line: LogLine, layers: Layers, draws: seq<Draw>, now: Instant, counts: map<DrawOp, nat>) {
    match line
    case Detail(d, layer, sinceMs) =>
      && d in draws && d.layer in layers && layer == layers[d.layer]
      && sinceMs * 1_000_000 <= (if now < layer.lastFrame then 0 else now - layer.lastFrame) < (sinceMs + 1) * 1_000_000
    case Summary(c) => c == counts
  }

  lemma {:induction false} DetailsAreTrue(o: Overpaint, layers: Layers, draws: seq<Draw>, now: Instant,
                                           counts: map<DrawOp, nat>)
    ensures forall line :: line in NoteDraws(o, layers, draws, now).1 ==> True(line, layers, draws, now, counts)
    decreases |draws|
  {
    if draws != [] {
      var before, last := draws[..|draws| - 1], draws[|draws| - 1];
      DetailsAreTrue(o, layers, before, now, counts);
      assert forall d :: d in before ==> d in draws;
      assert last in draws;
    }
  }

  lemma SummaryIsTrue(layers: Layers, draws: seq<Draw>, now: Instant, counts: map<DrawOp, nat>)
    ensures True(Summary(counts), layers, draws, now, counts)
  {
  }

  lemma LinesAreTrue(o: Overpaint, layers: Layers, draws: seq<Draw>, now: Instant)
    ensures var (o', lines) := NoteOverpaint(o, layers, draws, now);
            forall line :: line in lines ==> True(line, layers, draws, now, o'.counts)
  {
    hide NoteDraws, True;
    var o' := NoteOverpaint(o, layers, draws, now).0;
    DetailsAreTrue(o, layers, draws, now, o'.counts);
    assert True(Summary(o'.counts), layers, draws, now, o'.counts) by { SummaryIsTrue(layers, draws, now, o'.counts); }
  }
}
