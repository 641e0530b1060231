/** From a raw frame to slices and back: what the extractors cut, and what a reader of
    the report can put together again. */
module Slicing {
  import opened Bytes
  import opened Wrappers
  import opened DataIds
  import opened Report

  /** The slice of this id lies inside the frame. */
  predicate Fits(sizes: seq<nat>, raw: Option<seq<byte>>, id: nat)
    requires ID_BASE <= id <= |sizes|
  {
    raw.Some? && RawOffset(sizes, id) + sizes[id - ID_BASE] <= |raw.value|
  }

  function SliceOf(sizes: seq<nat>, raw: Option<seq<byte>>, id: nat): (s: Slice)
    requires ID_BASE <= id <= |sizes| && Fits(sizes, raw, id)
    ensures s.id == id && |s.data| == sizes[id - ID_BASE]
  {
    var off := RawOffset(sizes, id);
    Slice(id, raw.value[off..off + sizes[id - ID_BASE]])
  }

  predicate IdsOf(order: seq<nat>, sizes: seq<nat>) {
    forall i | 0 <= i < |order| :: ID_BASE <= order[i] <= |sizes|
  }

  /** The slices cut from one frame, in the order the registry is walked. */
  function SlicesOf(order: seq<nat>, sizes: seq<nat>, raw: Option<seq<byte>>): seq<Slice>
    requires IdsOf(order, sizes)
  {
    if order == [] then []
    else
      var id := order[|order| - 1];
      SlicesOf(order[..|order| - 1], sizes, raw) + if Fits(sizes, raw, id) then [SliceOf(sizes, raw, id)] else []
  }

  lemma {:induction false} SlicesSnoc(order: seq<nat>, id: nat, sizes: seq<nat>, raw: Option<seq<byte>>)
    requires IdsOf(order, sizes) && ID_BASE <= id <= |sizes|
    ensures IdsOf(order + [id], sizes)
    ensures SlicesOf(order + [id], sizes, raw)
         == SlicesOf(order, sizes, raw) + if Fits(sizes, raw, id) then [SliceOf(sizes, raw, id)] else []
  {
    assert (order + [id])[..|order|] == order;
  }

  lemma {:induction false} SlicesAre(order: seq<nat>, sizes: seq<nat>, raw: Option<seq<byte>>)
    requires IdsOf(order, sizes)
    ensures forall s | s in SlicesOf(order, sizes, raw) ::
              s.id in order && Fits(sizes, raw, s.id) && s == SliceOf(sizes, raw, s.id)
    ensures forall id | id in order && Fits(sizes, raw, id) ::
              SliceOf(sizes, raw, id) in SlicesOf(order, sizes, raw)
    decreases |order|
  {
    if order != [] {
      var n := |order| - 1;
      SlicesAre(order[..n], sizes, raw);
      assert order == order[..n] + [order[n]];
    }
  }

  /** order walks every id of the table exactly once, in whatever order. */
  ghost predicate Walks(order: seq<nat>, n: nat) {
    && |order| == n
    && (forall i | 0 <= i < n :: ID_BASE <= order[i] <= n)
    && (forall i, j | 0 <= i < j < n :: order[i] != order[j])
  }

  function Weight(order: seq<nat>, w: nat -> nat): nat {
    if order == [] then 0 else Weight(order[..|order| - 1], w) + w(order[|order| - 1])
  }

  function WeightTo(n: nat, w: nat -> nat): nat {
    if n == 0 then 0 else WeightTo(n - 1, w) + w(n)
  }

  lemma {:induction false} WeightConcat(a: seq<nat>, b: seq<nat>, w: nat -> nat)
    ensures Weight(a + b, w) == Weight(a, w) + Weight(b, w)
    decreases |b|
  {
    if b == [] {
      assert a + b == a;
    } else {
      assert (a + b)[..|a + b| - 1] == a + b[..|b| - 1];
      WeightConcat(a, b[..|b| - 1], w);
    }
  }

  function IdsTo(n: nat): (ids: set<nat>)
    ensures |ids| == n && forall x :: x in ids <==> ID_BASE <= x <= n
  {
    if n == 0 then {} else IdsTo(n - 1) + {n}
  }

  lemma {:induction false} CountWalk(order: seq<nat>, n: nat, k: nat) returns (seen: set<nat>)
    requires Walks(order, n) && k <= n
    ensures |seen| == k && forall x :: x in seen <==> x in order[..k]
    decreases k
  {
    if k == 0 {
      seen := {};
    } else {
      var fewer := CountWalk(order, n, k - 1);
      assert order[..k] == order[..k - 1] + [order[k - 1]];
      seen := fewer + {order[k - 1]};
    }
  }

  lemma SubsetOfSameSize<T>(a: set<T>, b: set<T>)
    requires a <= b && |a| == |b|
    ensures a == b
  {
    assert b == a + (b - a);
    assert |b| == |a| + |b - a|;
  }

  /** A walk in any order contains every id: pigeonhole on distinct bounded ids. */
  lemma {:induction false} WalkCovers(order: seq<nat>, n: nat, id: nat)
    requires Walks(order, n) && ID_BASE <= id <= n
    ensures id in order
  {
    var seen := CountWalk(order, n, n);
    assert order[..n] == order;
    SubsetOfSameSize(seen, IdsTo(n));
  }

  /** Leaving out the largest id leaves a walk of the others. */
  lemma {:induction false} ShorterWalk(order: seq<nat>, n: nat, j: nat)
    requires n > 0 && Walks(order, n) && j < n && order[j] == n
    ensures Walks(order[..j] + order[j + 1..], n - 1)
  {
    var rest := order[..j] + order[j + 1..];
    forall i | 0 <= i < n - 1
      ensures ID_BASE <= rest[i] <= n - 1
    {
      assert rest[i] == order[if i < j then i else i + 1];
    }
  }

  lemma {:induction false} WeightWithout(order: seq<nat>, j: nat, w: nat -> nat)
    requires j < |order|
    ensures Weight(order, w) == Weight(order[..j] + order[j + 1..], w) + w(order[j])
  {
    var before, after := order[..j], order[j + 1..];
    assert order == (before + [order[j]]) + after;
    WeightConcat(before + [order[j]], after, w);
    WeightConcat(before, after, w);
    assert (before + [order[j]])[..j] == before;
  }

  /** Sums over the table do not depend on the order it is walked in. */
  lemma {:induction false} WalkOrderIrrelevant(order: seq<nat>, n: nat, w: nat -> nat)
    requires Walks(order, n)
    ensures Weight(order, w) == WeightTo(n, w)
    decreases n
  {
    if n > 0 {
      WalkCovers(order, n, n);
      var j :| 0 <= j < n && order[j] == n;
      ShorterWalk(order, n, j);
      WeightWithout(order, j, w);
      WalkOrderIrrelevant(order[..j] + order[j + 1..], n - 1, w);
    }
  }

  // ---- how many slices fit ----

  /** The largest k such that the first k slices lie inside len bytes. */
  function FitCount(sizes: seq<nat>, len: nat, n: nat): (k: nat)
    requires n <= |sizes|
    ensures k <= n
  {
    if n == 0 then 0
    else if RAW_HEAD + Sum(sizes, n) <= len then n
    else FitCount(sizes, len, n - 1)
  }

  /** How many slices a frame yields, a null or short one included: those of ids 1..k. */
  function SliceCount(sizes: seq<nat>, raw: Option<seq<byte>>): (k: nat)
    ensures k <= |sizes|
  {
    if raw.None? then 0 else FitCount(sizes, |raw.value|, |sizes|)
  }

  lemma {:induction false} FitCountSum(sizes: seq<nat>, len: nat, n: nat)
    requires n <= |sizes|
    ensures var k := FitCount(sizes, len, n); k > 0 ==> RAW_HEAD + Sum(sizes, k) <= len
    decreases n
  {
    if n > 0 && RAW_HEAD + Sum(sizes, n) > len {
      FitCountSum(sizes, len, n - 1);
    }
  }

  lemma {:induction false} NullYieldsNothing(order: seq<nat>, sizes: seq<nat>)
    requires IdsOf(order, sizes)
    ensures SlicesOf(order, sizes, None) == []
    decreases |order|
  {
    if order != [] {
      NullYieldsNothing(order[..|order| - 1], sizes);
    }
  }

  lemma {:induction false} FitsIff(sizes: seq<nat>, raw: Option<seq<byte>>, n: nat, id: nat)
    requires ID_BASE <= id <= n <= |sizes| && raw.Some?
    ensures Fits(sizes, raw, id) <==> id <= FitCount(sizes, |raw.value|, n)
    decreases n
  {
    SumMonotone(sizes, id, n);
    if RAW_HEAD + Sum(sizes, n) > |raw.value| && id < n {
      FitsIff(sizes, raw, n - 1, id);
    }
  }

  lemma {:induction false} SlicesWeight(order: seq<nat>, sizes: seq<nat>, raw: Option<seq<byte>>, w: nat -> nat, c: nat -> nat)
    requires IdsOf(order, sizes)
    requires forall id | ID_BASE <= id <= |sizes| ::
               w(id) == if Fits(sizes, raw, id) then SUB + sizes[id - ID_BASE] else 0
    requires forall id | ID_BASE <= id <= |sizes| :: c(id) == if Fits(sizes, raw, id) then 1 else 0
    ensures |Encode(SlicesOf(order, sizes, raw))| == Weight(order, w)
    ensures |SlicesOf(order, sizes, raw)| == Weight(order, c)
    decreases |order|
  {
    if order != [] {
      var n := |order| - 1;
      SlicesWeight(order[..n], sizes, raw, w, c);
      var id := order[n];
      var front := SlicesOf(order[..n], sizes, raw);
      if Fits(sizes, raw, id) {
        var s := SliceOf(sizes, raw, id);
        EncodeConcat(front, [s]);
        EncodeOne(s, []);
        assert [s] + [] == [s];
      } else {
        assert SlicesOf(order, sizes, raw) == front;
      }
    }
  }

  lemma {:induction false} TableWeight(sizes: seq<nat>, raw: Option<seq<byte>>, n: nat, w: nat -> nat, c: nat -> nat)
    requires raw.Some? && n <= |sizes|
    requires forall id | ID_BASE <= id <= |sizes| ::
               w(id) == if Fits(sizes, raw, id) then SUB + sizes[id - ID_BASE] else 0
    requires forall id | ID_BASE <= id <= |sizes| :: c(id) == if Fits(sizes, raw, id) then 1 else 0
    ensures WeightTo(n, c) == FitCount(sizes, |raw.value|, n)
    ensures WeightTo(n, w) == SUB * WeightTo(n, c) + Sum(sizes, WeightTo(n, c))
    decreases n
  {
    if n > 0 {
      TableWeight(sizes, raw, n - 1, w, c);
      FitsIff(sizes, raw, n, n);
      if Fits(sizes, raw, n) && n > 1 {
        SumMonotone(sizes, n - 1, n);
        FitsIff(sizes, raw, n - 1, n - 1);
      }
    }
  }

  /** Whatever the registry's order, a frame yields exactly the ids 1..k that fit, and
      the report needs 4 bytes and the slice size for each of them. */
  lemma {:induction false} SlicesTotal(order: seq<nat>, sizes: seq<nat>, raw: Option<seq<byte>>)
    requires Walks(order, |sizes|) && raw.Some?
    ensures var k := FitCount(sizes, |raw.value|, |sizes|);
            && |SlicesOf(order, sizes, raw)| == k
            && |Encode(SlicesOf(order, sizes, raw))| == SUB * k + Sum(sizes, k)
  {
    var w := (id: nat) => if ID_BASE <= id <= |sizes| && Fits(sizes, raw, id) then SUB + sizes[id - ID_BASE] else 0;
    var c := (id: nat) => if ID_BASE <= id <= |sizes| && Fits(sizes, raw, id) then 1 else 0;
    SlicesWeight(order, sizes, raw, w, c);
    WalkOrderIrrelevant(order, |sizes|, w);
    WalkOrderIrrelevant(order, |sizes|, c);
    TableWeight(sizes, raw, |sizes|, w, c);
  }

  // ---- putting the raw frame together again ----

  /** The data of the first slice with this id. */
  function DataOf(ss: seq<Slice>, id: nat): seq<byte> {
    if ss == [] then [] else if ss[0].id == id then ss[0].data else DataOf(ss[1..], id)
  }

  /** The data of ids 1..k, concatenated in id order. */
  function Reassemble(ss: seq<Slice>, k: nat): seq<byte> {
    if k == 0 then [] else Reassemble(ss, k - 1) + DataOf(ss, k)
  }

  lemma {:induction false} DataOfFound(ss: seq<Slice>, s: Slice)
    requires s in ss && forall t | t in ss && t.id == s.id :: t == s
    ensures DataOf(ss, s.id) == s.data
    decreases |ss|
  {
    if ss[0] != s {
      assert ss[0] in ss;
      assert s in ss[1..];
      DataOfFound(ss[1..], s);
    }
  }

  lemma {:induction false} ReassembleRaw(order: seq<nat>, sizes: seq<nat>, raw: Option<seq<byte>>, k: nat)
    requires Walks(order, |sizes|) && raw.Some? && |raw.value| >= RAW_HEAD
    requires k <= FitCount(sizes, |raw.value|, |sizes|)
    ensures RawOffset(sizes, k + ID_BASE) <= |raw.value|
    ensures Reassemble(SlicesOf(order, sizes, raw), k) == raw.value[RAW_HEAD..RawOffset(sizes, k + ID_BASE)]
    decreases k
  {
    if k > 0 {
      ReassembleRaw(order, sizes, raw, k - 1);
      DataOfId(order, sizes, raw, k);
      var a, b := RawOffset(sizes, k), RawOffset(sizes, k + ID_BASE);
      assert raw.value[RAW_HEAD..b] == raw.value[RAW_HEAD..a] + raw.value[a..b];
    }
  }

  lemma {:induction false} DataOfId(order: seq<nat>, sizes: seq<nat>, raw: Option<seq<byte>>, id: nat)
    requires Walks(order, |sizes|) && raw.Some?
    requires ID_BASE <= id <= FitCount(sizes, |raw.value|, |sizes|)
    ensures RawOffset(sizes, id + ID_BASE) <= |raw.value|
    ensures RawOffset(sizes, id) <= RawOffset(sizes, id + ID_BASE)
    ensures DataOf(SlicesOf(order, sizes, raw), id)
         == raw.value[RawOffset(sizes, id)..RawOffset(sizes, id + ID_BASE)]
  {
    FitsIff(sizes, raw, |sizes|, id);
    WalkCovers(order, |sizes|, id);
    SlicesAre(order, sizes, raw);
    DataOfFound(SlicesOf(order, sizes, raw), SliceOf(sizes, raw, id));
  }

  /** The ids of the slices run from 1 to k. */
  lemma {:induction false} SliceIdRange(order: seq<nat>, sizes: seq<nat>, raw: Option<seq<byte>>)
    requires ValidTable(sizes) && Walks(order, |sizes|) && raw.Some?
    requires SlicesOf(order, sizes, raw) != []
    ensures var ss, k := SlicesOf(order, sizes, raw), FitCount(sizes, |raw.value|, |sizes|);
            MinId(ss) == 1 && MaxId(ss) == k
  {
    var ss, k := SlicesOf(order, sizes, raw), FitCount(sizes, |raw.value|, |sizes|);
    SlicesTotal(order, sizes, raw);
    SlicesAre(order, sizes, raw);
    forall i | 0 <= i < |ss|
      ensures 1 <= ss[i].id <= k && ss[i].id < U16
    {
      assert ss[i] in ss;
      FitsIff(sizes, raw, |sizes|, ss[i].id);
    }
    IdRange(ss);
    FitsIff(sizes, raw, |sizes|, 1);
    FitsIff(sizes, raw, |sizes|, k);
    WalkCovers(order, |sizes|, 1);
    WalkCovers(order, |sizes|, k);
    assert SliceOf(sizes, raw, 1) in ss && SliceOf(sizes, raw, k) in ss;
  }

  /** What a receiver makes of a frame: its header, ids 1..k, and from the slices in id
      order the raw bytes from behind the raw head to the end of slice k. */
  ghost predicate CarriesRaw(frame: seq<byte>, tsOff: nat, h: Header, limit: nat, sizes: seq<nat>, k: nat,
                             raw: seq<byte>)
    requires 4 <= tsOff
  {
    && HeaderSize(tsOff) <= |frame| <= CAP && k <= |sizes| && RAW_HEAD <= RawOffset(sizes, k + ID_BASE) <= |raw|
    && ViewOf(frame, tsOff, limit) == ReportView(h, k, if k > 0 then 1 else 0, k, |frame|)
    && Reassemble(Decode(frame[HeaderSize(tsOff)..], limit), k) == raw[RAW_HEAD..RawOffset(sizes, k + ID_BASE)]
  }

  /** Raw to report to raw: for any size table whose full report fits the frame bound,
      any raw frame and any registry order, the published frame parses to the slices of
      exactly the ids 1..k that fit, and their data in id order is the raw frame from
      behind its head to the end of slice k. */
  lemma {:induction false} RawReportRaw(order: seq<nat>, sizes: seq<nat>, raw: Option<seq<byte>>, front: seq<byte>,
                                        tsOff: nat, h: Header, limit: nat, frame: seq<byte>)
    requires ValidTable(sizes) && Walks(order, |sizes|) && raw.Some? && |raw.value| >= RAW_HEAD
    requires 4 <= tsOff && |front| == HeaderSize(tsOff) && h.Fits() && |sizes| <= limit
    requires HeaderSize(tsOff) + SUB * |sizes| + Sum(sizes, |sizes|) <= CAP
    requires frame == Stamp(front + Encode(SlicesOf(order, sizes, raw)), tsOff, h)
    ensures var ss := SlicesOf(order, sizes, raw);
            && Accepted(ss, |front|, CAP) == ss && Decode(frame[HeaderSize(tsOff)..], limit) == ss
            && CarriesRaw(frame, tsOff, h, limit, sizes, FitCount(sizes, |raw.value|, |sizes|), raw.value)
  {
    var ss := SlicesOf(order, sizes, raw);
    var k := FitCount(sizes, |raw.value|, |sizes|);
    NothingDropped(order, sizes, raw, |front|);
    FrameRoundTrip(front, tsOff, h, ss, limit);
    if ss != [] {
      SliceIdRange(order, sizes, raw);
    }
    ReassembleRaw(order, sizes, raw, k);
  }

  lemma {:induction false} NothingDropped(order: seq<nat>, sizes: seq<nat>, raw: Option<seq<byte>>, used: nat)
    requires ValidTable(sizes) && Walks(order, |sizes|) && raw.Some?
    requires used + SUB * |sizes| + Sum(sizes, |sizes|) <= CAP
    ensures var ss := SlicesOf(order, sizes, raw);
            && Accepted(ss, used, CAP) == ss
            && |ss| == FitCount(sizes, |raw.value|, |sizes|)
            && forall i | 0 <= i < |ss| :: ss[i].id < U16
  {
    var ss := SlicesOf(order, sizes, raw);
    SlicesTotal(order, sizes, raw);
    SumMonotone(sizes, |ss|, |sizes|);
    NoDropsIff(ss, used, CAP);
    SlicesAre(order, sizes, raw);
    forall i | 0 <= i < |ss|
      ensures ss[i].id < U16
    {
      assert ss[i] in ss;
    }
  }
}
