/** Bounded report statistics: sixty one-second buckets and a few totals that must agree
    with the full log of reports. */
module Statistics {
  import opened Bytes

  const WINDOW: nat := 60

  datatype SecBucket = SecBucket(sec: nat, frames: nat, bytes: nat)

  /** What a call sees: a report with its clock second, or a snapshot's clock second. */
  datatype Event = Report(now: nat, seqNo: nat, taskId: nat, frameLen: nat) | Snapshot(now: nat)

  datatype Tally = Tally(
    totalFrames: nat, totalBytes: nat, gaps: nat, lastSeq: nat, lastTask: nat, hasLast: bool, buckets: seq<SecBucket>)

  // ---- the code's steps, as functions ----

  function Rolled(bs: seq<SecBucket>, now: nat): (r: seq<SecBucket>)
    requires |bs| == WINDOW
    ensures |r| == WINDOW && r[now % WINDOW].sec == now
  {
    if bs[now % WINDOW].sec == now then bs else bs[now % WINDOW := SecBucket(now, 0, 0)]
  }

  function Added(bs: seq<SecBucket>, now: nat, bytes: nat): (r: seq<SecBucket>)
    requires |bs| == WINDOW
    ensures |r| == WINDOW
  {
    var rolled := Rolled(bs, now);
    var b := rolled[now % WINDOW];
    rolled[now % WINDOW := SecBucket(now, b.frames + 1, b.bytes + bytes)]
  }

  function After(t: Tally, e: Event): (r: Tally)
    requires |t.buckets| == WINDOW
    ensures |r.buckets| == WINDOW
  {
    match e
    case Report(now, seqNo, taskId, frameLen) =>
      Tally(t.totalFrames + 1, t.totalBytes + frameLen,
            t.gaps + (if t.hasLast && seqNo != (t.lastSeq + 1) % U32 then 1 else 0),
            seqNo, taskId, true, Added(t.buckets, now, frameLen))
    case Snapshot(now) => t.(buckets := Rolled(t.buckets, now))
  }

  /** Bucket i seconds back, if the snapshot counts it. */
  function Counted(bs: seq<SecBucket>, now: nat, i: nat): SecBucket
    requires |bs| == WINDOW && i <= WINDOW
  {
    var b := bs[(now - i + WINDOW * 4) % WINDOW];
    if b.sec > 0 && now - b.sec <= WINDOW then b else SecBucket(b.sec, 0, 0)
  }

  function SumFrames(bs: seq<SecBucket>, now: nat, k: nat): nat
    requires |bs| == WINDOW && k <= WINDOW
  {
    if k == 0 then 0 else SumFrames(bs, now, k - 1) + Counted(bs, now, k).frames
  }

  function SumBytes(bs: seq<SecBucket>, now: nat, k: nat): nat
    requires |bs| == WINDOW && k <= WINDOW
  {
    if k == 0 then 0 else SumBytes(bs, now, k - 1) + Counted(bs, now, k).bytes
  }

  function Empty(n: nat): (bs: seq<SecBucket>)
    ensures |bs| == n && forall i | 0 <= i < n :: bs[i] == SecBucket(0, 0, 0)
  {
    if n == 0 then [] else Empty(n - 1) + [SecBucket(0, 0, 0)]
  }

  function Start(): (t: Tally)
    ensures |t.buckets| == WINDOW
  {
    Tally(0, 0, 0, 0, 0, false, Empty(WINDOW))
  }

  function Exec(log: seq<Event>): (t: Tally)
    ensures |t.buckets| == WINDOW
  {
    if log == [] then Start() else After(Exec(log[..|log| - 1]), log[|log| - 1])
  }

  // ---- the full log ----

  /** Reports in the log with their second in [lo, hi], and their bytes. */
  function Frames(log: seq<Event>, lo: int, hi: int): nat {
    if log == [] then 0
    else
      var e := log[|log| - 1];
      Frames(log[..|log| - 1], lo, hi) + if e.Report? && lo <= e.now <= hi then 1 else 0
  }

  function BytesIn(log: seq<Event>, lo: int, hi: int): nat {
    if log == [] then 0
    else
      var e := log[|log| - 1];
      BytesIn(log[..|log| - 1], lo, hi) + if e.Report? && lo <= e.now <= hi then e.frameLen else 0
  }

  /** Where the report numbering breaks: each report against the one before it. */
  function Gaps(log: seq<Event>): nat {
    if log == [] then 0
    else
      var front := log[..|log| - 1];
      var e := log[|log| - 1];
      Gaps(front) + if e.Report? && HasReport(front) && e.seqNo != (LastSeq(front) + 1) % U32 then 1 else 0
  }

  predicate HasReport(log: seq<Event>) {
    exists i | 0 <= i < |log| :: log[i].Report?
  }

  function LastSeq(log: seq<Event>): nat
    requires HasReport(log)
  {
    var n := |log| - 1;
    if log[n].Report? then log[n].seqNo
    else
      assert HasReport(log[..n]) by {
        var i :| 0 <= i < |log| && log[i].Report?;
        assert log[..n][i].Report?;
      }
      LastSeq(log[..n])
  }

  /** The clock is positive, never runs back, and has reached now. */
  predicate Clocked(log: seq<Event>, now: nat) {
    && (forall i | 0 <= i < |log| :: 0 < log[i].now <= now)
    && (forall i, j | 0 <= i < j < |log| :: log[i].now <= log[j].now)
  }

  // ---- totals ----

  /** Event i is a report, and no report follows it. */
  ghost predicate LastReportIs(log: seq<Event>, i: nat) {
    i < |log| && log[i].Report? && forall j | i < j < |log| :: log[j].Snapshot?
  }

  /** Totals, gaps and the last number are those of the log; the last number and the last
      task are those of its last report. */
  lemma {:induction false} TotalsAreTheLog(log: seq<Event>, now: nat)
    requires Clocked(log, now)
    ensures var t := Exec(log);
            && t.totalFrames == Frames(log, 1, now) && t.totalBytes == BytesIn(log, 1, now)
            && t.gaps == Gaps(log) && t.hasLast == HasReport(log)
            && (t.hasLast ==> t.lastSeq == LastSeq(log))
    ensures forall i: nat | LastReportIs(log, i) ::
              Exec(log).hasLast && Exec(log).lastSeq == log[i].seqNo && Exec(log).lastTask == log[i].taskId
  {
    CountsAreTheLog(log, now);
    forall i: nat | LastReportIs(log, i)
      ensures Exec(log).hasLast && Exec(log).lastSeq == log[i].seqNo && Exec(log).lastTask == log[i].taskId
    {
      LastReportStays(log, i);
    }
  }

  lemma {:induction false} LastReportStays(log: seq<Event>, i: nat)
    requires LastReportIs(log, i)
    ensures Exec(log).hasLast && Exec(log).lastSeq == log[i].seqNo && Exec(log).lastTask == log[i].taskId
    decreases |log|
  {
    var n := |log| - 1;
    if i < n {
      assert log[n].Snapshot?;
      LastReportStays(log[..n], i);
    }
  }

  lemma {:induction false} CountsAreTheLog(log: seq<Event>, now: nat)
    requires Clocked(log, now)
    ensures var t := Exec(log);
            && t.totalFrames == Frames(log, 1, now) && t.totalBytes == BytesIn(log, 1, now)
            && t.gaps == Gaps(log) && t.hasLast == HasReport(log)
            && (t.hasLast ==> t.lastSeq == LastSeq(log))
    decreases |log|
  {
    if log != [] {
      var n := |log| - 1;
      CountsAreTheLog(log[..n], now);
      ReportsSnoc(log);
      assert Exec(log) == After(Exec(log[..n]), log[n]);
    }
  }

  /** The last report of a log is its last event, or that of the log before it. */
  lemma {:induction false} ReportsSnoc(log: seq<Event>)
    requires log != []
    ensures var n := |log| - 1;
            && HasReport(log) == (log[n].Report? || HasReport(log[..n]))
            && (HasReport(log) ==> LastSeq(log) == if log[n].Report? then log[n].seqNo else LastSeq(log[..n]))
  {
    var n := |log| - 1;
    if log[n].Report? {
      assert HasReport(log);
    } else if HasReport(log[..n]) {
      var i :| 0 <= i < n && log[..n][i].Report?;
      assert log[i].Report?;
    } else {
      assert forall i | 0 <= i < n :: !log[..n][i].Report? && log[i] == log[..n][i];
    }
  }

  // ---- the buckets ----

  /** Bucket r holds the newest second of its residue the log has touched. */
  ghost predicate BucketOk(log: seq<Event>, b: SecBucket, r: nat) {
    && (b.sec == 0 || b.sec % WINDOW == r)
    && b.frames == Frames(log, b.sec, b.sec) && b.bytes == BytesIn(log, b.sec, b.sec)
    && (forall i | 0 <= i < |log| && log[i].now % WINDOW == r :: log[i].now <= b.sec)
    && (b.sec > 0 ==> exists i | 0 <= i < |log| :: log[i].now == b.sec)
  }

  lemma {:induction false} NoneThere(log: seq<Event>, s: int)
    requires forall i | 0 <= i < |log| :: log[i].now != s
    ensures Frames(log, s, s) == 0 && BytesIn(log, s, s) == 0
    decreases |log|
  {
    if log != [] {
      NoneThere(log[..|log| - 1], s);
    }
  }

  lemma {:induction false} FramesSnoc(log: seq<Event>, e: Event, lo: int, hi: int)
    ensures Frames(log + [e], lo, hi) == Frames(log, lo, hi) + if e.Report? && lo <= e.now <= hi then 1 else 0
    ensures BytesIn(log + [e], lo, hi) == BytesIn(log, lo, hi) + if e.Report? && lo <= e.now <= hi then e.frameLen else 0
  {
    assert (log + [e])[..|log|] == log;
  }

  /** A bucket of another residue is not touched by an event. */
  lemma OtherBucket(log: seq<Event>, e: Event, b: SecBucket, r: nat)
    requires BucketOk(log, b, r) && e.now % WINDOW != r && e.now > 0
    ensures BucketOk(log + [e], b, r)
  {
    FramesSnoc(log, e, b.sec, b.sec);
    if b.sec > 0 {
      var i :| 0 <= i < |log| && log[i].now == b.sec;
      assert (log + [e])[i].now == b.sec;
    }
  }

  function Touched(b: SecBucket, e: Event): SecBucket {
    var kept := if b.sec == e.now then b else SecBucket(e.now, 0, 0);
    if e.Report? then SecBucket(e.now, kept.frames + 1, kept.bytes + e.frameLen) else kept
  }

  /** The bucket of the event's own residue moves to the event's second. */
  lemma OwnBucket(log: seq<Event>, e: Event, b: SecBucket)
    requires BucketOk(log, b, e.now % WINDOW) && Clocked(log, e.now) && e.now > 0
    ensures BucketOk(log + [e], Touched(b, e), e.now % WINDOW)
  {
    FramesSnoc(log, e, e.now, e.now);
    if b.sec != e.now {
      NewSecond(log, e, b);
      NoneThere(log, e.now);
    }
    assert (log + [e])[|log|] == e;
  }

  lemma NewSecond(log: seq<Event>, e: Event, b: SecBucket)
    requires BucketOk(log, b, e.now % WINDOW) && Clocked(log, e.now) && e.now > 0 && b.sec != e.now
    ensures b.sec < e.now && forall i | 0 <= i < |log| :: log[i].now != e.now
  {
    if b.sec > 0 {
      var k :| 0 <= k < |log| && log[k].now == b.sec;
    }
  }

  ghost predicate BucketsOk(log: seq<Event>, bs: seq<SecBucket>) {
    |bs| == WINDOW && forall r: nat | r < WINDOW :: BucketOk(log, bs[r], r)
  }

  lemma OneTouched(t: Tally, e: Event, r: nat)
    requires |t.buckets| == WINDOW && r < WINDOW
    ensures After(t, e).buckets[r] == if r == e.now % WINDOW then Touched(t.buckets[r], e) else t.buckets[r]
  {
  }

  lemma BucketsStep(log: seq<Event>, e: Event, t: Tally)
    requires BucketsOk(log, t.buckets) && Clocked(log, e.now) && e.now > 0
    ensures BucketsOk(log + [e], After(t, e).buckets)
  {
    forall r: nat | r < WINDOW ensures BucketOk(log + [e], After(t, e).buckets[r], r) {
      OneTouched(t, e, r);
      if r == e.now % WINDOW {
        OwnBucket(log, e, t.buckets[r]);
      } else {
        OtherBucket(log, e, t.buckets[r], r);
      }
    }
  }

  lemma BucketsStart()
    ensures BucketsOk([], Exec([]).buckets)
  {
  }

  lemma {:induction false} BucketsSnoc(log: seq<Event>)
    requires log != [] && Clocked(log[..|log| - 1], log[|log| - 1].now) && log[|log| - 1].now > 0
    requires BucketsOk(log[..|log| - 1], Exec(log[..|log| - 1]).buckets)
    ensures BucketsOk(log, Exec(log).buckets)
  {
    var front, e := log[..|log| - 1], log[|log| - 1];
    BucketsStep(front, e, Exec(front));
    assert log == front + [e];
  }

  lemma {:induction false} BucketsFollow(log: seq<Event>, now: nat)
    requires Clocked(log, now)
    ensures BucketsOk(log, Exec(log).buckets)
    decreases |log|
  {
    if log == [] {
      BucketsStart();
    } else {
      ClockedFront(log, now);
      BucketsFollow(log[..|log| - 1], log[|log| - 1].now);
      BucketsSnoc(log);
    }
  }

  lemma ClockedFront(log: seq<Event>, now: nat)
    requires Clocked(log, now) && log != []
    ensures var n := |log| - 1; Clocked(log[..n], log[n].now) && 0 < log[n].now <= now
  {
  }

  // ---- the snapshot's sum ----

  /** What the snapshot counts i seconds back is what the log has at that second. */
  lemma {:induction false} CountedIsLog(log: seq<Event>, bs: seq<SecBucket>, now: nat, i: nat)
    requires BucketsOk(log, bs) && Clocked(log, now) && bs[now % WINDOW].sec == now && 0 < i <= WINDOW && 0 < now
    ensures var s := if i == WINDOW then now else now - i;
            && Counted(bs, now, i).frames == Frames(log, s, s) && Counted(bs, now, i).bytes == BytesIn(log, s, s)
  {
    var s := if i == WINDOW then now else now - i;
    var r := (now - i + WINDOW * 4) % WINDOW;
    var b := bs[r];
    Residues(now, i, b.sec);
    assert BucketOk(log, b, r);
    NotAhead(log, b, now, r);
    if b.sec == 0 || now - b.sec > WINDOW {
      NotThere(log, b, now, s, r);
      NoneThere(log, s);
    }
  }

  /** No bucket is ahead of the clock. */
  lemma NotAhead(log: seq<Event>, b: SecBucket, now: nat, r: nat)
    requires BucketOk(log, b, r) && Clocked(log, now)
    ensures b.sec <= now
  {
    if b.sec > 0 {
      var k :| 0 <= k < |log| && log[k].now == b.sec;
    }
  }

  /** A bucket that the snapshot skips has no newer second of its residue behind it. */
  lemma NotThere(log: seq<Event>, b: SecBucket, now: nat, s: int, r: nat)
    requires BucketOk(log, b, r) && Clocked(log, now) && (b.sec == 0 || now - b.sec > WINDOW)
    requires now - WINDOW < s && (s >= 0 ==> s % WINDOW == r)
    ensures forall k | 0 <= k < |log| :: log[k].now != s
  {
    forall k | 0 <= k < |log| ensures log[k].now != s {
      assert log[k].now % WINDOW == r ==> log[k].now <= b.sec;
    }
  }

  lemma SameResidue(a: int, b: int)
    requires (b - a) % WINDOW == 0
    ensures a % WINDOW == b % WINDOW
  {
  }

  lemma NearResidue(a: int, b: int)
    requires a % WINDOW == b % WINDOW && a < b + WINDOW && b < a + WINDOW
    ensures a == b
  {
  }

  /** A second of residue now - i, at most 60 back, is exactly i back, or 0 or 60 for i = 60. */
  lemma Residues(now: nat, i: nat, sec: nat)
    requires 0 < i <= WINDOW
    ensures var r := (now - i + WINDOW * 4) % WINDOW;
            && (i <= now ==> (now - i) % WINDOW == r)
            && (i == WINDOW ==> now % WINDOW == r)
            && (i < WINDOW && sec <= now <= sec + WINDOW && sec % WINDOW == r ==> sec == now - i)
  {
    var at := now - i + WINDOW * 4;
    SameResidue(now - i, at);
    if i == WINDOW {
      SameResidue(now, at);
    } else if sec <= now <= sec + WINDOW && sec % WINDOW == at % WINDOW {
      NearResidue(sec, now - i);
    }
  }

  /** Seconds hi - k + 1 .. hi, one at a time or all at once. */
  lemma {:induction false} OneMoreSecond(log: seq<Event>, lo: int, hi: int)
    requires lo <= hi
    ensures Frames(log, lo, hi) == Frames(log, lo, lo) + Frames(log, lo + 1, hi)
    ensures BytesIn(log, lo, hi) == BytesIn(log, lo, lo) + BytesIn(log, lo + 1, hi)
    decreases |log|
  {
    if log != [] {
      OneMoreSecond(log[..|log| - 1], lo, hi);
    }
  }

  /** Every second before now that the snapshot looks at is counted as logged. */
  ghost predicate CountsLog(log: seq<Event>, bs: seq<SecBucket>, now: nat)
    requires |bs| == WINDOW
  {
    forall i: nat | 0 < i < WINDOW ::
      && Counted(bs, now, i).frames == Frames(log, now - i, now - i)
      && Counted(bs, now, i).bytes == BytesIn(log, now - i, now - i)
  }

  lemma {:induction false} AllCounted(log: seq<Event>, bs: seq<SecBucket>, now: nat)
    requires BucketsOk(log, bs) && Clocked(log, now) && bs[now % WINDOW].sec == now && 0 < now
    ensures CountsLog(log, bs, now)
    ensures Counted(bs, now, WINDOW).frames == Frames(log, now, now)
    ensures Counted(bs, now, WINDOW).bytes == BytesIn(log, now, now)
  {
    forall i: nat | 0 < i < WINDOW
      ensures Counted(bs, now, i).frames == Frames(log, now - i, now - i)
      ensures Counted(bs, now, i).bytes == BytesIn(log, now - i, now - i)
    {
      CountedIsLog(log, bs, now, i);
    }
    CountedIsLog(log, bs, now, WINDOW);
  }

  lemma {:induction false} SumIsWindow(log: seq<Event>, bs: seq<SecBucket>, now: nat, k: nat)
    requires |bs| == WINDOW && CountsLog(log, bs, now) && k < WINDOW
    ensures SumFrames(bs, now, k) == Frames(log, now - k, now - 1)
    ensures SumBytes(bs, now, k) == BytesIn(log, now - k, now - 1)
    decreases k
  {
    if k > 0 {
      SumIsWindow(log, bs, now, k - 1);
      OneMoreSecond(log, now - k, now - 1);
    } else {
      NothingIn(log, now, now - 1);
    }
  }

  lemma {:induction false} NothingIn(log: seq<Event>, lo: int, hi: int)
    requires hi < lo
    ensures Frames(log, lo, hi) == 0 && BytesIn(log, lo, hi) == 0
    decreases |log|
  {
    if log != [] {
      NothingIn(log[..|log| - 1], lo, hi);
    }
  }

  lemma {:induction false} Split(log: seq<Event>, lo: int, mid: int, hi: int)
    requires lo <= mid + 1 && mid <= hi
    ensures Frames(log, lo, hi) == Frames(log, lo, mid) + Frames(log, mid + 1, hi)
    ensures BytesIn(log, lo, hi) == BytesIn(log, lo, mid) + BytesIn(log, mid + 1, hi)
    decreases |log|
  {
    if log != [] {
      Split(log[..|log| - 1], lo, mid, hi);
    }
  }

  /** The buckets a snapshot at now works on. */
  function AtSnapshot(log: seq<Event>, now: nat): (bs: seq<SecBucket>)
    ensures |bs| == WINDOW
  {
    Rolled(Exec(log).buckets, now)
  }

  lemma SnapshotReady(log: seq<Event>, now: nat)
    requires Clocked(log, now) && 0 < now
    ensures Clocked(log + [Snapshot(now)], now) && BucketsOk(log + [Snapshot(now)], AtSnapshot(log, now))
  {
    BucketsFollow(log, now);
    BucketsStep(log, Snapshot(now), Exec(log));
  }

  lemma {:induction false} SumIsFullWindow(log: seq<Event>, bs: seq<SecBucket>, now: nat)
    requires |bs| == WINDOW && CountsLog(log, bs, now)
    requires Counted(bs, now, WINDOW).frames == Frames(log, now, now)
    requires Counted(bs, now, WINDOW).bytes == BytesIn(log, now, now)
    ensures SumFrames(bs, now, WINDOW) == Frames(log, now - 59, now)
    ensures SumBytes(bs, now, WINDOW) == BytesIn(log, now - 59, now)
  {
    var k := WINDOW - 1;
    SumIsWindow(log, bs, now, k);
    Split(log, now - 59, now - 1, now);
    assert SumFrames(bs, now, k + 1) == SumFrames(bs, now, k) + Counted(bs, now, k + 1).frames;
    assert SumBytes(bs, now, k + 1) == SumBytes(bs, now, k) + Counted(bs, now, k + 1).bytes;
  }

  /** Under a positive clock that never runs back, the sum a snapshot forms is the reports
      of the sixty seconds up to now, whatever happened before and however often snapshots
      were taken. */
  lemma {:induction false} WindowExact(log: seq<Event>, now: nat)
    requires Clocked(log, now) && 0 < now
    ensures SumFrames(AtSnapshot(log, now), now, WINDOW) == Frames(log, now - 59, now)
    ensures SumBytes(AtSnapshot(log, now), now, WINDOW) == BytesIn(log, now - 59, now)
  {
    var seen, bs := log + [Snapshot(now)], AtSnapshot(log, now);
    SnapshotReady(log, now);
    AllCounted(seen, bs, now);
    SumIsFullWindow(seen, bs, now);
    FramesSnoc(log, Snapshot(now), now - 59, now);
  }

  /** The sum is what a five-second mean needs, the reports of the five full seconds before
      now, iff no report lies in the current second or six to fifty-nine seconds back. */
  lemma {:induction false} FiveSecondsIff(log: seq<Event>, now: nat)
    requires Clocked(log, now) && 0 < now
    ensures SumFrames(AtSnapshot(log, now), now, WINDOW) == Frames(log, now - 5, now - 1)
       <==> Frames(log, now - 59, now - 6) == 0 && Frames(log, now, now) == 0
  {
    WindowExact(log, now);
    Split(log, now - 59, now - 6, now);
    Split(log, now - 5, now - 1, now);
  }

  // ---- the code ----

  class Stats {
    var totalFrames: nat
    var totalBytes: nat
    var gaps: nat
    var lastSeq: nat
    var lastTaskId: nat
    var hasLastSeq: bool
    const buckets: array<SecBucket>

    ghost predicate Valid() {
      buckets.Length == WINDOW
    }

    ghost function State(): (t: Tally)
      requires Valid()
      reads this, buckets
      ensures |t.buckets| == WINDOW
    {
      Tally(totalFrames, totalBytes, gaps, lastSeq, lastTaskId, hasLastSeq, buckets[..])
    }

    constructor ()
      ensures Valid() && fresh(buckets) && State() == Exec([])
    {
      totalFrames, totalBytes, gaps, lastSeq, lastTaskId, hasLastSeq := 0, 0, 0, 0, 0, false;
      buckets := new SecBucket[WINDOW](_ => SecBucket(0, 0, 0));
      new;
      assert buckets[..] == Empty(WINDOW);
    }

    method RollTo(nowSec: nat)
      requires Valid()
      modifies buckets
      ensures buckets[..] == Rolled(old(buckets[..]), nowSec)
    {
      var idx := nowSec % WINDOW;
      if buckets[idx].sec != nowSec {
        buckets[idx] := SecBucket(nowSec, 0, 0);
      }
    }

    method AddBucket(bytes: nat, nowSec: nat)
      requires Valid()
      modifies buckets
      ensures buckets[..] == Added(old(buckets[..]), nowSec, bytes)
    {
      RollTo(nowSec);
      var b := buckets[nowSec % WINDOW];
      buckets[nowSec % WINDOW] := SecBucket(b.sec, b.frames + 1, b.bytes + bytes);
    }

    method OnReport(seqNo: nat, taskId: nat, frameLen: nat, nowSec: nat)
      requires Valid()
      modifies this, buckets
      ensures State() == After(old(State()), Report(nowSec, seqNo, taskId, frameLen))
    {
      totalFrames := totalFrames + 1;
      totalBytes := totalBytes + frameLen;
      if hasLastSeq && seqNo != (lastSeq + 1) % U32 {
        gaps := gaps + 1;
      }
      lastSeq := seqNo;
      hasLastSeq := true;
      lastTaskId := taskId;
      AddBucket(frameLen, nowSec);
    }

    /** The sums behind the snapshot's rates, before they are divided by five. */
    method SnapshotSums(nowSec: nat) returns (frames: nat, bytes: nat)
      requires Valid()
      modifies buckets
      ensures State() == After(old(State()), Snapshot(nowSec))
      ensures frames == SumFrames(buckets[..], nowSec, WINDOW) && bytes == SumBytes(buckets[..], nowSec, WINDOW)
    {
      RollTo(nowSec);
      frames, bytes := 0, 0;
      for i := 1 to WINDOW + 1
        invariant buckets[..] == Rolled(old(buckets[..]), nowSec)
        invariant frames == SumFrames(buckets[..], nowSec, i - 1) && bytes == SumBytes(buckets[..], nowSec, i - 1)
      {
        var b := buckets[(nowSec - i + WINDOW * 4) % WINDOW];
        assert b == buckets[..][(nowSec - i + WINDOW * 4) % WINDOW];
        if b.sec > 0 && nowSec - b.sec <= WINDOW {
          frames := frames + b.frames;
          bytes := bytes + b.bytes;
        }
      }
    }
  }
}
