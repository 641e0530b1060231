/** Report frames: the bounded serialiser of the data thread and the parser of the
    observation side.

    A frame is a header followed by slices, each a sub-header (id, length) and its
    data.  The header's size depends on the padding before its 64-bit time stamp, so
    that offset is a parameter, shared by both ends as the C++ struct is. */
module Report {
  import opened Bytes
  import opened Wrappers
  import opened Memory

  const SUB: nat := 4
  const CAP: nat := 48 * 1024
  const MAX_SLICES: nat := 1000
  const NO_ID: nat := 0xFFFF

  datatype Slice = Slice(id: nat, data: seq<byte>)

  datatype Header = Header(taskId: nat, timestampMs: nat, seqNo: nat, payloadLen: nat) {
    predicate Fits() {
      taskId < U32 && timestampMs < U64 && seqNo < U32 && payloadLen < U32
    }
  }

  datatype ReportView = ReportView(header: Header, sliceCount: nat, dataIdMin: nat, dataIdMax: nat, frameLen: nat)

  function HeaderSize(tsOff: nat): nat {
    tsOff + 16
  }

  // ---- slices on the wire ----

  function EncodeSlice(s: Slice): (bs: seq<byte>)
    ensures |bs| == SUB + |s.data|
  {
    Le(s.id, 2) + Le(|s.data|, 2) + s.data
  }

  function Encode(ss: seq<Slice>): seq<byte> {
    if ss == [] then [] else EncodeSlice(ss[0]) + Encode(ss[1..])
  }

  /** The slices that parsing takes from a body, at most limit of them: it stops at the
      first one that is not wholly there. */
  function Decode(body: seq<byte>, limit: nat): (ss: seq<Slice>)
    ensures |ss| <= limit
    decreases limit
  {
    if limit == 0 || |body| < SUB then []
    else
      var id, n := Val(body[..2]), Val(body[2..4]);
      if SUB + n > |body| then []
      else [Slice(id, body[SUB..SUB + n])] + Decode(body[SUB + n..], limit - 1)
  }

  predicate WireSize(s: Slice) {
    s.id < U16 && |s.data| < U16
  }

  lemma SliceFields(s: Slice)
    requires WireSize(s)
    ensures Val(EncodeSlice(s)[..2]) == s.id && Val(EncodeSlice(s)[2..4]) == |s.data|
    ensures EncodeSlice(s)[SUB..] == s.data
  {
    ValLe16(s.id);
    ValLe16(|s.data|);
    assert EncodeSlice(s)[..2] == Le(s.id, 2);
    assert EncodeSlice(s)[2..4] == Le(|s.data|, 2);
  }

  /** A slice on the wire, byte for byte: two bytes id, two bytes length, the data. */
  lemma {:induction false} SliceBytes(s: Slice)
    requires WireSize(s)
    ensures var bs := EncodeSlice(s);
            Half(bs, 0) == s.id && Half(bs, 2) == |s.data| && bs[4..] == s.data
  {
    var bs := EncodeSlice(s);
    SliceFields(s);
    ValHalf(bs, 0);
    assert bs[0..2] == bs[..2];
    ValHalf(bs, 2);
  }

  lemma {:induction false} DecodeHead(s: Slice, tail: seq<byte>, limit: nat)
    requires WireSize(s) && limit > 0
    ensures Decode(EncodeSlice(s) + tail, limit) == [s] + Decode(tail, limit - 1)
  {
    var head := EncodeSlice(s);
    var body := head + tail;
    SliceFields(s);
    assert body[..2] == head[..2] && body[2..4] == head[2..4];
    assert body[SUB..SUB + |s.data|] == head[SUB..];
    assert body[SUB + |s.data|..] == tail;
  }

  /** The first slice of a body is literally its first bytes. */
  lemma {:induction false} FirstSlice(body: seq<byte>) returns (s: Slice)
    requires SUB <= |body| && SUB + Val(body[2..4]) <= |body|
    ensures s == Slice(Val(body[..2]), body[SUB..SUB + Val(body[2..4])])
    ensures WireSize(s) && EncodeSlice(s) == body[..SUB + |s.data|]
  {
    var n := Val(body[2..4]);
    s := Slice(Val(body[..2]), body[SUB..SUB + n]);
    LeVal(body[..2]);
    LeVal(body[2..4]);
    Pow256Words();
    assert body[..SUB + n] == body[..2] + body[2..4] + body[SUB..SUB + n];
  }

  lemma PrefixConcat<T>(a: seq<T>, x: seq<T>, b: seq<T>)
    requires |a| <= |b| && a == b[..|a|] && x <= b[|a|..]
    ensures a + x <= b
  {
    assert b == b[..|a|] + b[|a|..];
  }

  /** Every byte string: what was parsed, re-encoded, is literally the front of it. */
  lemma {:induction false} ParsedIsThere(body: seq<byte>, limit: nat)
    ensures Encode(Decode(body, limit)) <= body
    decreases limit
  {
    if limit > 0 && |body| >= SUB && SUB + Val(body[2..4]) <= |body| {
      var s := FirstSlice(body);
      var behind := body[SUB + |s.data|..];
      var rest := Decode(behind, limit - 1);
      ParsedIsThere(behind, limit - 1);
      assert Decode(body, limit) == [s] + rest;
      EncodeOne(s, rest);
      PrefixConcat(EncodeSlice(s), Encode(rest), body);
    }
  }

  lemma {:induction false} EncodeOne(s: Slice, rest: seq<Slice>)
    ensures Encode([s] + rest) == EncodeSlice(s) + Encode(rest)
  {
    assert ([s] + rest)[1..] == rest;
  }

  /** got is what a parser bounded by limit should take of ss from its first n bytes. */
  ghost predicate WhollyInside(got: seq<Slice>, ss: seq<Slice>, n: nat, limit: nat) {
    && |got| <= |ss| && got == ss[..|got|] && |Encode(got)| <= n
    && (|got| == |ss| || |got| == limit || |Encode(ss[..|got| + 1])| > n)
  }

  /** A truncated body yields exactly the slices that lie wholly inside it. */
  lemma {:induction false} TruncationExact(ss: seq<Slice>, body: seq<byte>, limit: nat)
    requires (forall i | 0 <= i < |ss| :: WireSize(ss[i])) && body <= Encode(ss)
    ensures WhollyInside(Decode(body, limit), ss, |body|, limit)
    decreases |ss|
  {
    if ss != [] && limit > 0 {
      var s, rest := ss[0], ss[1..];
      var head := EncodeSlice(s);
      assert ss == [s] + rest;
      if |body| >= |head| {
        PrefixRest(head, Encode(rest), body);
        TruncationExact(rest, body[|head|..], limit - 1);
        WholeHead(s, rest, body[|head|..], limit);
      } else {
        CutHead(s, rest, body, limit);
      }
    }
  }

  lemma {:induction false} WholeHead(s: Slice, rest: seq<Slice>, tail: seq<byte>, limit: nat)
    requires WireSize(s) && limit > 0 && WhollyInside(Decode(tail, limit - 1), rest, |tail|, limit - 1)
    ensures WhollyInside(Decode(EncodeSlice(s) + tail, limit), [s] + rest, |EncodeSlice(s) + tail|, limit)
  {
    DecodeHead(s, tail, limit);
    InsideCons(s, Decode(tail, limit - 1), rest, |tail|, limit - 1);
  }

  lemma PrefixRest<T>(head: seq<T>, x: seq<T>, b: seq<T>)
    requires b <= head + x && |head| <= |b|
    ensures b == head + b[|head|..] && b[|head|..] <= x
  {
    assert b == (head + x)[..|b|];
  }

  lemma {:induction false} InsideCons(s: Slice, got: seq<Slice>, rest: seq<Slice>, n: nat, limit: nat)
    requires WhollyInside(got, rest, n, limit)
    ensures WhollyInside([s] + got, [s] + rest, n + SUB + |s.data|, limit + 1)
  {
    var k := |got|;
    EncodeCons(s, rest, k);
    assert ([s] + rest)[..k + 1] == [s] + got;
    if k < |rest| {
      EncodeCons(s, rest, k + 1);
    }
  }

  lemma EncodeCons(s: Slice, rest: seq<Slice>, k: nat)
    requires k <= |rest|
    ensures Encode(([s] + rest)[..k + 1]) == EncodeSlice(s) + Encode(rest[..k])
  {
    assert ([s] + rest)[..k + 1][1..] == rest[..k];
  }

  /** A body that ends inside its first slice yields nothing. */
  lemma {:induction false} CutHead(s: Slice, rest: seq<Slice>, body: seq<byte>, limit: nat)
    requires WireSize(s) && body <= EncodeSlice(s) + Encode(rest) && |body| < SUB + |s.data|
    ensures Decode(body, limit) == [] && WhollyInside([], [s] + rest, |body|, limit)
  {
    EncodeCons(s, rest, 0);
    if |body| >= SUB {
      SliceFields(s);
      assert body[2..4] == EncodeSlice(s)[2..4];
    }
  }

  /** A whole body gives back all its slices, up to the parser's bound. */
  lemma {:induction false} DecodeEncode(ss: seq<Slice>, limit: nat)
    requires forall i | 0 <= i < |ss| :: WireSize(ss[i])
    ensures Decode(Encode(ss), limit) == ss[..if |ss| < limit then |ss| else limit]
  {
    TruncationExact(ss, Encode(ss), limit);
    var k := |Decode(Encode(ss), limit)|;
    if k < |ss| {
      EncodeFront(ss, k + 1);
    }
  }

  lemma {:induction false} EncodeFront(ss: seq<Slice>, k: nat)
    requires k <= |ss|
    ensures |Encode(ss[..k])| <= |Encode(ss)|
  {
    EncodeConcat(ss[..k], ss[k..]);
    assert ss[..k] + ss[k..] == ss;
  }

  lemma {:induction false} EncodeConcat(a: seq<Slice>, b: seq<Slice>)
    ensures Encode(a + b) == Encode(a) + Encode(b)
    decreases |a|
  {
    if a == [] {
      assert a + b == b;
    } else {
      assert (a + b)[1..] == a[1..] + b;
      EncodeConcat(a[1..], b);
    }
  }

  // ---- greedy filling ----

  /** The slices that Add keeps when the buffer already holds used bytes. */
  function Accepted(ss: seq<Slice>, used: nat, cap: nat): seq<Slice> {
    if ss == [] then []
    else if used + SUB + |ss[0].data| > cap then Accepted(ss[1..], used, cap)
    else [ss[0]] + Accepted(ss[1..], used + SUB + |ss[0].data|, cap)
  }

  lemma {:induction false} AcceptedSnoc(ss: seq<Slice>, s: Slice, used: nat, cap: nat)
    ensures var end := used + |Encode(Accepted(ss, used, cap))|;
            Accepted(ss + [s], used, cap)
            == Accepted(ss, used, cap) + if end + SUB + |s.data| > cap then [] else [s]
    decreases |ss|
  {
    if ss == [] {
      assert (ss + [s])[1..] == [];
    } else {
      assert (ss + [s])[1..] == ss[1..] + [s];
      var next := used + SUB + |ss[0].data|;
      if next > cap {
        AcceptedSnoc(ss[1..], s, used, cap);
      } else {
        AcceptedSnoc(ss[1..], s, next, cap);
      }
    }
  }

  /** The frame never outgrows its bound, and no accepted length is cut by its 16-bit
      field: the bound is below 64 KiB. */
  lemma {:induction false} AcceptedFits(ss: seq<Slice>, used: nat, cap: nat)
    requires used <= cap < U16
    ensures used + |Encode(Accepted(ss, used, cap))| <= cap
    ensures |Accepted(ss, used, cap)| <= |ss|
    ensures forall i | 0 <= i < |Accepted(ss, used, cap)| ::
              Accepted(ss, used, cap)[i] in ss && |Accepted(ss, used, cap)[i].data| < U16
    decreases |ss|
  {
    if ss != [] {
      var next := used + SUB + |ss[0].data|;
      AcceptedFits(ss[1..], if next > cap then used else next, cap);
    }
  }

  /** Nothing is dropped exactly when everything together fits. */
  lemma {:induction false} NoDropsIff(ss: seq<Slice>, used: nat, cap: nat)
    requires used <= cap
    ensures Accepted(ss, used, cap) == ss <==> used + |Encode(ss)| <= cap
    ensures |Accepted(ss, used, cap)| == |ss| <==> Accepted(ss, used, cap) == ss
    decreases |ss|
  {
    if ss != [] {
      var next := used + SUB + |ss[0].data|;
      assert ss == [ss[0]] + ss[1..];
      if next <= cap {
        NoDropsIff(ss[1..], next, cap);
      } else {
        AcceptedNotLonger(ss[1..], used, cap);
      }
    }
  }

  lemma {:induction false} AcceptedNotLonger(ss: seq<Slice>, used: nat, cap: nat)
    ensures |Accepted(ss, used, cap)| <= |ss|
    decreases |ss|
  {
    if ss != [] {
      var next := used + SUB + |ss[0].data|;
      AcceptedNotLonger(ss[1..], if next > cap then used else next, cap);
    }
  }

  // ---- the header ----

  /** Four fields written into the front of a frame; padding keeps its bytes. */
  function WithFields(frame: seq<byte>, tsOff: nat, a: seq<byte>, b: seq<byte>, c: seq<byte>, d: seq<byte>): (out: seq<byte>)
    requires 4 <= tsOff && HeaderSize(tsOff) <= |frame|
    requires |a| == 4 && |b| == 8 && |c| == 4 && |d| == 4
    ensures |out| == |frame|
  {
    Splice(Splice(Splice(Splice(frame, 0, a), tsOff, b), tsOff + 8, c), tsOff + 12, d)
  }

  /** Filling in the header of a buffer fills it in on the part in use. */
  lemma FieldsPrefix(s: seq<byte>, tsOff: nat, a: seq<byte>, b: seq<byte>, c: seq<byte>, d: seq<byte>, n: nat)
    requires 4 <= tsOff && HeaderSize(tsOff) <= n <= |s| && |a| == 4 && |b| == 8 && |c| == 4 && |d| == 4
    ensures WithFields(s, tsOff, a, b, c, d)[..n] == WithFields(s[..n], tsOff, a, b, c, d)
  {
    var s1 := Splice(s, 0, a);
    var s2 := Splice(s1, tsOff, b);
    var s3 := Splice(s2, tsOff + 8, c);
    SplicePrefix(s, 0, a, n);
    SplicePrefix(s1, tsOff, b, n);
    SplicePrefix(s2, tsOff + 8, c, n);
    SplicePrefix(s3, tsOff + 12, d, n);
  }

  function Stamp(frame: seq<byte>, tsOff: nat, h: Header): (out: seq<byte>)
    requires 4 <= tsOff && HeaderSize(tsOff) <= |frame|
    ensures |out| == |frame|
  {
    WithFields(frame, tsOff, Le(h.taskId, 4), Le(h.timestampMs, 8), Le(h.seqNo, 4), Le(h.payloadLen, 4))
  }

  function HeaderAt(frame: seq<byte>, tsOff: nat): Header
    requires 4 <= tsOff && HeaderSize(tsOff) <= |frame|
  {
    Header(Val(frame[..4]), Val(frame[tsOff..tsOff + 8]),
           Val(frame[tsOff + 8..tsOff + 12]), Val(frame[tsOff + 12..tsOff + 16]))
  }

  /** The header fields come back, and the body behind the header is untouched. */
  lemma StampRoundTrip(frame: seq<byte>, tsOff: nat, h: Header)
    requires 4 <= tsOff && HeaderSize(tsOff) <= |frame| && h.Fits()
    ensures HeaderAt(Stamp(frame, tsOff, h), tsOff) == h
    ensures Stamp(frame, tsOff, h)[HeaderSize(tsOff)..] == frame[HeaderSize(tsOff)..]
  {
    FieldsKept(frame, tsOff, Le(h.taskId, 4), Le(h.timestampMs, 8), Le(h.seqNo, 4), Le(h.payloadLen, 4));
    ValLe32(h.taskId);
    ValLe64(h.timestampMs);
    ValLe32(h.seqNo);
    ValLe32(h.payloadLen);
  }

  /** The header on the wire, byte for byte: the task in bytes 0 to 3, the time stamp in
      the eight bytes at tsOff, behind it the number and the length of what follows the
      header; every field with its low byte first. */
  lemma {:induction false} HeaderBytes(frame: seq<byte>, tsOff: nat, h: Header)
    requires 4 <= tsOff && tsOff + 16 <= |frame| && h.Fits()
    ensures var out := Stamp(frame, tsOff, h);
            && Word(out, 0) == h.taskId
            && Word(out, tsOff) + 0x1_0000_0000 * Word(out, tsOff + 4) == h.timestampMs
            && Word(out, tsOff + 8) == h.seqNo && Word(out, tsOff + 12) == h.payloadLen
            && out[tsOff + 16..] == frame[tsOff + 16..]
  {
    var out := Stamp(frame, tsOff, h);
    StampRoundTrip(frame, tsOff, h);
    ValWord(out, 0);
    assert out[0..4] == out[..4];
    ValDouble(out, tsOff);
    ValWord(out, tsOff + 8);
    ValWord(out, tsOff + 12);
  }

  lemma FieldsKept(frame: seq<byte>, tsOff: nat, a: seq<byte>, b: seq<byte>, c: seq<byte>, d: seq<byte>)
    requires 4 <= tsOff && HeaderSize(tsOff) <= |frame|
    requires |a| == 4 && |b| == 8 && |c| == 4 && |d| == 4
    ensures var out := WithFields(frame, tsOff, a, b, c, d);
            && out[..4] == a && out[tsOff..tsOff + 8] == b
            && out[tsOff + 8..tsOff + 12] == c && out[tsOff + 12..tsOff + 16] == d
            && out[HeaderSize(tsOff)..] == frame[HeaderSize(tsOff)..]
  {
    var f1 := Splice(frame, 0, a);
    var f2 := Splice(f1, tsOff, b);
    var f3 := Splice(f2, tsOff + 8, c);
    KeptBehind(frame, 0, a, 0, 4, tsOff, b, tsOff + 8, c, tsOff + 12, d);
    KeptBehind(f1, tsOff, b, tsOff, tsOff + 8, tsOff + 8, c, tsOff + 12, d, tsOff + 12, d);
    KeptBehind(f2, tsOff + 8, c, tsOff + 8, tsOff + 12, tsOff + 12, d, tsOff + 12, d, tsOff + 12, d);
    SpliceRead(f3, tsOff + 12, d);
    var end, n := HeaderSize(tsOff), |frame|;
    SpliceOther(frame, 0, a, end, n);
    SpliceOther(f1, tsOff, b, end, n);
    SpliceOther(f2, tsOff + 8, c, end, n);
    SpliceOther(f3, tsOff + 12, d, end, n);
  }

  /** A field written at [lo..hi) is still there after up to three later writes behind it. */
  lemma KeptBehind(s: seq<byte>, at: nat, src: seq<byte>, lo: nat, hi: nat,
                   p: nat, x: seq<byte>, q: nat, y: seq<byte>, r: nat, z: seq<byte>)
    requires lo == at && hi == at + |src| <= |s|
    requires hi <= p && hi <= q && hi <= r && p + |x| <= |s| && q + |y| <= |s| && r + |z| <= |s|
    ensures var t := Splice(s, at, src);
            && Splice(t, p, x)[lo..hi] == src
            && Splice(Splice(t, p, x), q, y)[lo..hi] == src
            && Splice(Splice(Splice(t, p, x), q, y), r, z)[lo..hi] == src
  {
    var t := Splice(s, at, src);
    SpliceRead(s, at, src);
    SpliceOther(t, p, x, lo, hi);
    SpliceOther(Splice(t, p, x), q, y, lo, hi);
    SpliceOther(Splice(Splice(t, p, x), q, y), r, z, lo, hi);
  }

  // ---- the serialiser ----

  /** What a flush hands to the sink: nothing without a sink or behind a bare header,
      otherwise one frame, the content with its header filled in. */
  function Sent(hasSink: bool, content: seq<byte>, tsOff: nat, taskId: nat, timestampMs: nat, seqNo: nat): seq<seq<byte>>
    requires 4 <= tsOff
  {
    if !hasSink || |content| <= HeaderSize(tsOff) then []
    else [Stamp(content, tsOff, Header(taskId, timestampMs, seqNo, |content| - HeaderSize(tsOff)))]
  }

  class ReportAggregator {
    const tsOff: nat
    const buf: array<byte>
    var hasSink: bool
    var taskId: nat
    var used: nat
    var drops: nat
    var published: seq<seq<byte>>

    ghost predicate Valid()
      reads this
    {
      buf.Length == CAP && 4 <= tsOff && HeaderSize(tsOff) <= CAP && used <= CAP
    }

    ghost function Content(): seq<byte>
      requires Valid()
      reads this, buf
    {
      buf[..used]
    }

    constructor (tsOff: nat)
      requires 4 <= tsOff && HeaderSize(tsOff) <= CAP
      ensures Valid() && fresh(buf) && this.tsOff == tsOff && !hasSink && used == drops == 0 && published == []
    {
      this.tsOff := tsOff;
      buf := new byte[CAP](_ => 0);
      hasSink, taskId, used, drops, published := false, 0, 0, 0, [];
    }

    method Begin(taskId: nat)
      requires Valid()
      modifies this`taskId, this`used
      ensures Valid() && this.taskId == taskId && used == HeaderSize(tsOff)
    {
      this.taskId := taskId;
      used := HeaderSize(tsOff);
    }

    /** Append one slice, or drop it whole and count it.  A null cache leaves a bare
        sub-header behind. */
    method Add(dataId: nat, cache: Option<seq<byte>>, len: nat)
      requires Valid() && (cache.Some? ==> |cache.value| == len)
      modifies this`used, this`drops, buf
      ensures Valid()
      ensures var full := old(used) + 4 + len > 49152;
              && drops == old(drops) + (if full then 1 else 0)
              && (full ==> Content() == old(Content()))
              && (!full && cache.Some? ==> Content() == old(Content()) + EncodeSlice(Slice(dataId, cache.value)))
              && (!full && cache.None? ==> Content() == old(Content()) + Le(dataId, 2) + Le(len, 2))
    {
      if used + SUB + len > CAP {
        drops := drops + 1;
        return;
      }
      ghost var was := Content();
      Memcpy(buf, used, Le(dataId, 2) + Le(len, 2));
      used := used + SUB;
      assert Content() == was + (Le(dataId, 2) + Le(len, 2));
      ghost var half := Content();
      if cache.Some? && len > 0 {
        Memcpy(buf, used, cache.value);
        used := used + len;
        assert Content() == half + cache.value;
      } else if cache.Some? {
        assert cache.value == [];
      }
    }

    /** Stamp the header, publish the frame once, and empty the buffer; an empty frame
        or a missing sink publishes nothing. */
    method Flush(timestampMs: nat, seqNo: nat)
      requires Valid()
      modifies this`used, this`published, buf
      ensures Valid()
      ensures published == old(published) + Sent(hasSink, old(Content()), tsOff, taskId, timestampMs, seqNo)
      ensures !hasSink || old(used) <= HeaderSize(tsOff) ==> Content() == old(Content())
      ensures hasSink && old(used) > HeaderSize(tsOff) ==> used == 0
    {
      if !hasSink || used <= HeaderSize(tsOff) {
        assert published + [] == published;
        return;
      }
      ghost var was := buf[..];
      var plen := used - HeaderSize(tsOff);
      Memcpy(buf, 0, Le(taskId, 4));
      Memcpy(buf, tsOff, Le(timestampMs, 8));
      Memcpy(buf, tsOff + 8, Le(seqNo, 4));
      Memcpy(buf, tsOff + 12, Le(plen, 4));
      FieldsPrefix(was, tsOff, Le(taskId, 4), Le(timestampMs, 8), Le(seqNo, 4), Le(plen, 4), used);
      assert buf[..][..used] == buf[..used];
      published := published + [buf[..used]];
      used := 0;
    }
  }

  // ---- the parser ----

  function MinId(ss: seq<Slice>): nat {
    if ss == [] then NO_ID
    else var m := MinId(ss[..|ss| - 1]); if ss[|ss| - 1].id < m then ss[|ss| - 1].id else m
  }

  function MaxId(ss: seq<Slice>): nat {
    if ss == [] then 0
    else var m := MaxId(ss[..|ss| - 1]); if ss[|ss| - 1].id > m then ss[|ss| - 1].id else m
  }

  lemma {:induction false} IdRange(ss: seq<Slice>)
    requires ss != [] && forall i | 0 <= i < |ss| :: ss[i].id < U16
    ensures forall i | 0 <= i < |ss| :: MinId(ss) <= ss[i].id <= MaxId(ss)
    ensures exists i | 0 <= i < |ss| :: ss[i].id == MinId(ss)
    ensures exists i | 0 <= i < |ss| :: ss[i].id == MaxId(ss)
    decreases |ss|
  {
    var n := |ss| - 1;
    var front, last := ss[..n], ss[n];
    if n > 0 {
      IdRange(front);
      var a :| 0 <= a < n && front[a].id == MinId(front);
      var b :| 0 <= b < n && front[b].id == MaxId(front);
      assert ss[a] == front[a] && ss[b] == front[b];
      forall i | 0 <= i < n
        ensures MinId(front) <= ss[i].id <= MaxId(front)
      {
        assert ss[i] == front[i];
      }
    } else {
      assert front == [];
    }
    assert ss[n] == last;
  }

  /** What parsing a frame should report, when at most limit slices are counted. */
  function ViewOf(frame: seq<byte>, tsOff: nat, limit: nat): ReportView
    requires 4 <= tsOff && HeaderSize(tsOff) <= |frame|
  {
    var ss := Decode(frame[HeaderSize(tsOff)..], limit);
    ReportView(HeaderAt(frame, tsOff), |ss|, if |ss| > 0 then MinId(ss) else 0, MaxId(ss), |frame|)
  }

  /** One turn of the parser's loop, at position pos of the body. */
  lemma {:induction false} DecodeAt(body: seq<byte>, pos: nat, limit: nat)
    requires pos <= |body|
    ensures limit == 0 || pos + SUB > |body| ==> Decode(body[pos..], limit) == []
    ensures limit > 0 && pos + SUB <= |body| ==>
              var id, n := Val(body[pos..pos + 2]), Val(body[pos + 2..pos + SUB]);
              && (pos + SUB + n > |body| ==> Decode(body[pos..], limit) == [])
              && (pos + SUB + n <= |body| ==>
                    Decode(body[pos..], limit)
                    == [Slice(id, body[pos + SUB..pos + SUB + n])] + Decode(body[pos + SUB + n..], limit - 1))
  {
    var rest := body[pos..];
    if limit > 0 && pos + SUB <= |body| {
      var n := Val(body[pos + 2..pos + SUB]);
      assert rest[..2] == body[pos..pos + 2] && rest[2..4] == body[pos + 2..pos + SUB];
      if pos + SUB + n <= |body| {
        assert rest[SUB..SUB + n] == body[pos + SUB..pos + SUB + n];
        assert rest[SUB + n..] == body[pos + SUB + n..];
      }
    }
  }

  lemma {:induction false} DecodeNext(body: seq<byte>, pos: nat, limit: nat, id: nat, n: nat)
    requires limit > 0 && pos + SUB + n <= |body|
    requires id == Val(body[pos..pos + 2]) && n == Val(body[pos + 2..pos + SUB])
    ensures Decode(body[pos..], limit)
         == [Slice(id, body[pos + SUB..pos + SUB + n])] + Decode(body[pos + SUB + n..], limit - 1)
  {
    DecodeAt(body, pos, limit);
  }

  lemma {:induction false} MinMaxSnoc(ss: seq<Slice>, s: Slice)
    ensures MinId(ss + [s]) == if s.id < MinId(ss) then s.id else MinId(ss)
    ensures MaxId(ss + [s]) == if s.id > MaxId(ss) then s.id else MaxId(ss)
  {
    assert (ss + [s])[..|ss|] == ss;
  }

  /** count slices are parsed, up to position pos, and minId and maxId summarise them. */
  ghost predicate ParsedTo(body: seq<byte>, limit: nat, pos: nat, count: nat, minId: nat, maxId: nat) {
    var total := Decode(body, limit);
    && pos <= |body| && count <= limit && count <= |total|
    && Decode(body[pos..], limit - count) == total[count..]
    && minId == MinId(total[..count]) && maxId == MaxId(total[..count])
  }

  lemma {:induction false} ParsedStart(body: seq<byte>, limit: nat)
    ensures ParsedTo(body, limit, 0, 0, NO_ID, 0)
  {
    var total := Decode(body, limit);
    assert body[0..] == body && total[0..] == total && total[..0] == [];
  }

  lemma {:induction false} ParsedNext(body: seq<byte>, limit: nat, pos: nat, count: nat, minId: nat, maxId: nat,
                                      id: nat, n: nat)
    requires ParsedTo(body, limit, pos, count, minId, maxId) && count < limit && pos + SUB + n <= |body|
    requires id == Val(body[pos..pos + 2]) && n == Val(body[pos + 2..pos + SUB])
    ensures ParsedTo(body, limit, pos + SUB + n, count + 1,
                     if id < minId then id else minId, if id > maxId then id else maxId)
  {
    DecodeNext(body, pos, limit - count, id, n);
    var next := pos + SUB + n;
    TakeNext(Decode(body, limit), count, Slice(id, body[pos + SUB..next]), Decode(body[next..], limit - count - 1));
  }

  lemma {:induction false} ParsedAll(body: seq<byte>, limit: nat, pos: nat, count: nat, minId: nat, maxId: nat)
    requires ParsedTo(body, limit, pos, count, minId, maxId)
    requires pos + SUB > |body| || count == limit || pos + SUB + Val(body[pos + 2..pos + SUB]) > |body|
    ensures var ss := Decode(body, limit);
            count == |ss| && minId == MinId(ss) && maxId == MaxId(ss)
  {
    DecodeAt(body, pos, limit - count);
    var total := Decode(body, limit);
    assert total[..count] == total;
  }

  lemma TakeNext(total: seq<Slice>, k: nat, s: Slice, rest: seq<Slice>)
    requires k <= |total| && total[k..] == [s] + rest
    ensures k < |total| && total[k + 1..] == rest
    ensures MinId(total[..k + 1]) == if s.id < MinId(total[..k]) then s.id else MinId(total[..k])
    ensures MaxId(total[..k + 1]) == if s.id > MaxId(total[..k]) then s.id else MaxId(total[..k])
  {
    assert total[k] == total[k..][0] == s;
    assert total[k + 1..] == total[k..][1..];
    assert total[..k + 1] == total[..k] + [s];
    MinMaxSnoc(total[..k], s);
  }

  /** The parser's loop over the bytes behind the header. */
  method ParseBody(body: seq<byte>, limit: nat) returns (count: nat, minId: nat, maxId: nat)
    ensures var ss := Decode(body, limit);
            count == |ss| && minId == MinId(ss) && maxId == MaxId(ss)
  {
    var pos: nat := 0;
    count, minId, maxId := 0, NO_ID, 0;
    ParsedStart(body, limit);
    while pos + SUB <= |body| && count < limit
      invariant pos <= |body| && count <= limit && ParsedTo(body, limit, pos, count, minId, maxId)
      decreases limit - count
    {
      var id := Val(body[pos..pos + 2]);
      var n := Val(body[pos + 2..pos + SUB]);
      if pos + SUB + n > |body| {
        break;
      }
      ParsedNext(body, limit, pos, count, minId, maxId, id, n);
      if id < minId {
        minId := id;
      }
      if id > maxId {
        maxId := id;
      }
      count := count + 1;
      pos := pos + SUB + n;
    }
    ParsedAll(body, limit, pos, count, minId, maxId);
  }

  method ParseReport(data: Option<seq<byte>>, tsOff: nat) returns (out: Option<ReportView>)
    requires 4 <= tsOff
    ensures out == if data.None? || |data.value| < HeaderSize(tsOff) then None
                   else Some(ViewOf(data.value, tsOff, 1000))
  {
    if data.None? || |data.value| < HeaderSize(tsOff) {
      return None;
    }
    var frame := data.value;
    var count, minId, maxId := ParseBody(frame[HeaderSize(tsOff)..], MAX_SLICES);
    out := Some(ReportView(HeaderAt(frame, tsOff), count, if count > 0 then minId else 0, maxId, |frame|));
  }

  // ---- both ends together ----

  /** For any slices offered between Begin and Flush: the published frame stays within
      its bound and parses back to the same header fields, and to the count and id range
      of exactly the accepted slices. */
  lemma {:induction false} FrameRoundTrip(front: seq<byte>, tsOff: nat, h: Header, ss: seq<Slice>, limit: nat)
    requires 4 <= tsOff && |front| == HeaderSize(tsOff) <= CAP && h.Fits()
    requires forall i | 0 <= i < |ss| :: ss[i].id < U16
    requires |Accepted(ss, |front|, CAP)| <= limit
    ensures var acc := Accepted(ss, |front|, CAP);
            var frame := Stamp(front + Encode(acc), tsOff, h);
            && |frame| <= CAP
            && ViewOf(frame, tsOff, limit)
               == ReportView(h, |acc|, if acc == [] then 0 else MinId(acc), MaxId(acc), |frame|)
            && Decode(frame[HeaderSize(tsOff)..], limit) == acc
  {
    var acc := Accepted(ss, |front|, CAP);
    var frame := front + Encode(acc);
    AcceptedFits(ss, |front|, CAP);
    StampRoundTrip(frame, tsOff, h);
    assert frame[HeaderSize(tsOff)..] == Encode(acc);
    forall i | 0 <= i < |acc|
      ensures WireSize(acc[i])
    {
      assert acc[i] in ss;
    }
    DecodeEncode(acc, limit);
    assert acc[..|acc|] == acc;
  }

  /** The same frame cut anywhere behind its header: the header fields still read back,
      and the slices counted are exactly those wholly inside the cut. */
  lemma {:induction false} CutFrame(front: seq<byte>, tsOff: nat, h: Header, acc: seq<Slice>, n: nat, limit: nat)
    requires 4 <= tsOff && |front| == HeaderSize(tsOff) && h.Fits()
    requires forall i | 0 <= i < |acc| :: WireSize(acc[i])
    requires HeaderSize(tsOff) <= n <= |front + Encode(acc)|
    ensures var cut := Stamp(front + Encode(acc), tsOff, h)[..n];
            var got := Decode(cut[HeaderSize(tsOff)..], limit);
            && WhollyInside(got, acc, n - HeaderSize(tsOff), limit)
            && ViewOf(cut, tsOff, limit)
               == ReportView(h, |got|, if |got| > 0 then MinId(got) else 0, MaxId(got), n)
  {
    var frame := front + Encode(acc);
    var out := Stamp(frame, tsOff, h);
    StampRoundTrip(frame, tsOff, h);
    var cut := out[..n];
    assert cut[..4] == out[..4] && cut[tsOff..tsOff + 8] == out[tsOff..tsOff + 8];
    assert cut[tsOff + 8..tsOff + 12] == out[tsOff + 8..tsOff + 12];
    assert cut[tsOff + 12..tsOff + 16] == out[tsOff + 12..tsOff + 16];
    assert frame[HeaderSize(tsOff)..] == Encode(acc);
    assert cut[HeaderSize(tsOff)..] == Encode(acc)[..n - HeaderSize(tsOff)];
    TruncationExact(acc, cut[HeaderSize(tsOff)..], limit);
  }
}
