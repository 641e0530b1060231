/** How far wait_drain's eight-byte test protects the queue.

    The header promises that Write blocks while the segment is full, yet the test only
    asks for eight free bytes and then publishes a whole entry.  This module says
    exactly when that is enough: for one write, and for all traffic of given sizes. */
module BucketGuard {
  import opened Bytes
  import opened Wrappers
  import opened Ring
  import opened BucketProtocol
  import opened BucketRuns
  import opened BucketSegments

  /** On 8-aligned positions the test fails at one single occupancy: exactly full.
      An overfull ring passes it again, through the unsigned wrap. */
  lemma GuardBlocksIffFull(cap: nat, w: nat, r: nat)
    requires 0 < cap < U32 && cap % ENTRY_ALIGN == 0
    requires w % ENTRY_ALIGN == 0 && r % ENTRY_ALIGN == 0 && r <= w <= r + U32
    ensures DrainGuard(cap, w, r) <==> w != r + cap
  {
    var occupied := w - r;
    assert Sub64(w, r) == occupied;
    if occupied > cap {
      assert (cap - occupied) % U64 == cap - occupied + U64;
    } else {
      AlignedGap(w, r, cap);
    }
  }

  lemma AlignedGap(w: nat, r: nat, cap: nat)
    requires cap % ENTRY_ALIGN == 0 && w % ENTRY_ALIGN == 0 && r % ENTRY_ALIGN == 0 && r <= w <= r + cap
    ensures w == r + cap || w + ENTRY_ALIGN <= r + cap
  {
    SumAligned(r, cap);
    if w < r + cap {
      AlignedApart(w, r + cap);
    }
  }

  lemma AlignedApart(x: nat, y: nat)
    requires x % ENTRY_ALIGN == 0 && y % ENTRY_ALIGN == 0 && x < y
    ensures x + ENTRY_ALIGN <= y
  {
  }

  /** In a ring that is not overfull, one write that passes the guard keeps the queue the
      ring holds, whatever its payload, if and only if the record's own bytes fit before
      the oldest unread byte. */
  lemma {:induction false} PayloadSafeIff(ring: seq<byte>, r: nat, w: nat, ms: seq<Message>, len: nat)
    requires 0 < |ring| && |ring| % ENTRY_ALIGN == 0 && Entry(len) <= |ring| < U32
    requires r % ENTRY_ALIGN == 0 && w % ENTRY_ALIGN == 0 && w < r + |ring|
    requires Unread(ring, r, w) == Some(ms)
    ensures (forall m: Message | |m| == len ::
               Unread(Deposit(ring, w, Record(m)), r, w + Entry(len)) == Some(ms + [m]))
       <==> Room(|ring|, w, r, len)
  {
    if Room(|ring|, w, r, len) {
      forall m: Message | |m| == len
        ensures Unread(Deposit(ring, w, Record(m)), r, w + Entry(len)) == Some(ms + [m])
      {
        UnreadAfterWrite(ring, r, w, m, ms);
      }
    } else {
      var m := UnsafePayload(ring, r, w, ms, len);
    }
  }

  /** Without room there is a payload that spoils the queue. */
  lemma {:induction false} UnsafePayload(ring: seq<byte>, r: nat, w: nat, ms: seq<Message>, len: nat)
    returns (m: Message)
    requires 0 < |ring| && |ring| % ENTRY_ALIGN == 0 && Entry(len) <= |ring| < U32
    requires r % ENTRY_ALIGN == 0 && w % ENTRY_ALIGN == 0 && w < r + |ring|
    requires Unread(ring, r, w) == Some(ms) && !Room(|ring|, w, r, len)
    ensures |m| == len && Unread(Deposit(ring, w, Record(m)), r, w + Entry(len)) != Some(ms + [m])
  {
    UnreadIff(ring, r, w, ms);
    assert r <= w && ms != [];
    m := Constant(len, if ring[r % |ring|] == 0 then 1 else 0);
    OverwrittenHead(ring, r, w, m, ms);
    NotUnread(Deposit(ring, w, Record(m)), r, w + Entry(len), ms + [m]);
  }

  lemma {:induction false} NotUnread(ring: seq<byte>, r: nat, w: nat, ms: seq<Message>)
    requires |ring| > 0 && !Holds(ring, r, ms)
    ensures Unread(ring, r, w) != Some(ms)
  {
    UnreadIff(ring, r, w, ms);
  }

  function Constant(n: nat, b: byte): (bs: seq<byte>)
    ensures |bs| == n && forall i | 0 <= i < n :: bs[i] == b
  {
    seq(n, _ => b)
  }

  /** Without room, the new payload lands on the oldest unread length header. */
  lemma {:induction false} OverwrittenHead(ring: seq<byte>, r: nat, w: nat, m: Message, ms: seq<Message>)
    requires 0 < |ring| && |Record(m)| <= |ring| && |ring| % ENTRY_ALIGN == 0
    requires r % ENTRY_ALIGN == 0 && w % ENTRY_ALIGN == 0 && r <= w < r + |ring|
    requires !Room(|ring|, w, r, |m|) && Holds(ring, r, ms) && ms != []
    requires forall i | 0 <= i < |m| :: m[i] != ring[r % |ring|]
    ensures !Holds(Deposit(ring, w, Record(m)), r, ms + [m])
  {
    var after := Deposit(ring, w, Record(m));
    OverwrittenByte(ring, r, w, m);
    assert Fetch(after, r, HEADER)[0] != Fetch(ring, r, HEADER)[0];
    LeVal(Fetch(ring, r, HEADER));
    LeVal(Fetch(after, r, HEADER));
    FetchRecord(ring, r, ms[0]);
    FetchRecord(after, r, ms[0]);
    assert (ms + [m])[0] == ms[0];
  }

  lemma {:induction false} OverwrittenByte(ring: seq<byte>, r: nat, w: nat, m: Message)
    requires 0 < |ring| && |Record(m)| <= |ring| && |ring| % ENTRY_ALIGN == 0
    requires r % ENTRY_ALIGN == 0 && w % ENTRY_ALIGN == 0 && r <= w < r + |ring|
    requires !Room(|ring|, w, r, |m|)
    ensures var f := r + |ring| - w;
            HEADER <= f < |Record(m)| && Deposit(ring, w, Record(m))[r % |ring|] == m[f - HEADER]
  {
    var f := EightFree(r, w, |ring|);
    SameCell(r, |ring|);
    assert w + f == r + |ring|;
    DepositCell(ring, w, Record(m), f);
    assert Record(m)[f] == m[f - HEADER];
  }

  lemma EightFree(r: nat, w: nat, cap: nat) returns (f: nat)
    requires cap % ENTRY_ALIGN == 0 && r % ENTRY_ALIGN == 0 && w % ENTRY_ALIGN == 0 && r <= w < r + cap
    ensures f == r + cap - w && f >= ENTRY_ALIGN
  {
    f := r + cap - w;
    AlignedGap(w, r, cap);
  }

  lemma DepositCell(ring: seq<byte>, at: nat, src: seq<byte>, f: nat)
    requires f < |src| <= |ring|
    ensures Deposit(ring, at, src)[(at + f) % |ring|] == src[f]
  {
    AheadOfCell(at, f, |ring|);
  }

  lemma SameCell(p: nat, cap: nat)
    requires cap > 0
    ensures (p + cap) % cap == p % cap
  {
    ModUnique(p + cap, p / cap + 1, p % cap, cap);
  }

  // ---- runs without any hypothesis on room ----

  /** Every write of the run is of one of the entry sizes in sizes. */
  predicate Traffic(acts: seq<Action>, sizes: set<nat>) {
    forall a | a in acts && a.Call? :: Entry(|a.msg|) in sizes
  }

  predicate AcceptedSizes(sizes: set<nat>, cap: nat) {
    sizes != {} && forall e | e in sizes :: e % ENTRY_ALIGN == 0 && ENTRY_ALIGN <= e <= cap
  }

  /** The ring is a whole number of equal entries, and there is no other size. */
  ghost predicate OneDivisor(sizes: set<nat>, cap: nat) {
    exists e: nat :: e > 0 && sizes == {e} && cap % e == 0
  }

  lemma ModSum(x: nat, y: nat, e: nat)
    requires e > 0 && x % e == 0 && y % e == 0
    ensures (x + y) % e == 0
  {
    ModUnique(x + y, x / e + y / e, 0, e);
  }

  lemma NextMultiple(x: nat, y: nat, e: nat)
    requires e > 0 && x % e == 0 && y % e == 0 && x < y
    ensures x + e <= y
  {
    if y < x + e {
      ModDistinct(x, y, e);
    }
  }

  ghost predicate Sends(pc: Writer, e: nat) {
    pc.Wanting? || pc.Waiting? || pc.Copying? ==> Entry(|pc.msg|) == e
  }

  /** What uniform traffic keeps: whole entries in use, and never more than the ring. */
  ghost predicate Uniform(s: State, e: nat)
    requires e > 0 && Fifo(s)
  {
    && s.writePos % e == 0 && s.readPos % e == 0
    && s.writePos <= s.readPos + |s.ring|
    && (forall w :: Sends(s.Pc(w), e))
    && (forall i | 0 <= i < |Pending(s)| :: Entry(|Pending(s)[i]|) == e)
    && (s.lock.Held? && s.Pc(s.lock.holder).Copying? ==> s.writePos + e <= s.readPos + |s.ring|)
  }

  /** Under uniform traffic the eight-byte test already means a whole entry is free. */
  lemma {:induction false} UniformRoom(s: State, w: nat, e: nat)
    requires Inv(s) && e > 0 && |s.ring| % e == 0 && e % ENTRY_ALIGN == 0 && Uniform(s, e)
    requires s.Pc(w).Waiting? && DrainGuard(|s.ring|, s.writePos, s.readPos)
    ensures s.writePos + e <= s.readPos + |s.ring| && RoomyStep(s, Check(w))
  {
    EightDivides(s.writePos, e);
    EightDivides(s.readPos, e);
    GuardBlocksIffFull(|s.ring|, s.writePos, s.readPos);
    ModSum(s.readPos, |s.ring|, e);
    NextMultiple(s.writePos, s.readPos + |s.ring|, e);
    assert Sends(s.Pc(w), e);
  }

  lemma {:induction false} UniformConsume(s: State, e: nat, t: State)
    requires SizesOk(s) && QueueOk(s) && ReadOk(s) && e > 0 && Uniform(s, e)
    requires Reads(s, Consume(s.front)) == Some(t)
    ensures QueueOk(t) && Pending(s) != [] && Pending(t) == Pending(s)[1..]
    ensures t.readPos == s.readPos + e && t.readPos % e == 0 && t.readPos <= t.writePos == s.writePos
  {
    ConsumeKeeps(s, t);
    assert Entry(|Pending(s)[0]|) == e;
    ModSum(s.readPos, e, e);
    assert t.writePos == End(t.readPos, Pending(t));
  }

  lemma {:induction false} UniformReaderStep(s: State, a: Action, e: nat, t: State)
    requires SizesOk(s) && QueueOk(s) && ReadOk(s) && e > 0 && Uniform(s, e)
    requires IsRead(a) && a.h == s.front && Reads(s, a) == Some(t)
    ensures Fifo(t) && Uniform(t, e)
  {
    if a.Consume? {
      UniformConsume(s, e, t);
      UniformMoved(s, e, t);
    } else {
      SameLogs(s, a, t);
      UniformMoved(s, e, t);
    }
  }

  lemma SameLogs(s: State, a: Action, t: State)
    requires |s.ring| > 0 && IsRead(a) && a.h == s.front && !a.Consume? && Reads(s, a) == Some(t) && Fifo(s)
    ensures Fifo(t) && Pending(t) == Pending(s) && t.readPos == s.readPos && t.writePos == s.writePos
    ensures t.writers == s.writers && t.lock == s.lock && t.ring == s.ring
  {
    assert t.Front().delivered == s.Front().delivered && t.Front().start == s.Front().start;
  }

  /** Reading on keeps uniformity. */
  lemma UniformMoved(s: State, e: nat, t: State)
    requires e > 0 && Fifo(s) && Uniform(s, e) && Fifo(t) && |t.ring| == |s.ring| && t.writePos == s.writePos
    requires t.writers == s.writers && t.lock == s.lock && s.readPos <= t.readPos && t.readPos % e == 0
    requires forall i | 0 <= i < |Pending(t)| :: Entry(|Pending(t)[i]|) == e
    ensures Uniform(t, e)
  {
    assert forall w :: t.Pc(w) == s.Pc(w);
  }

  lemma {:induction false} SendsStep(s: State, a: Action, e: nat, t: State)
    requires IsWrite(a)
    requires |s.ring| > 0 && Writes(s, a) == Some(t)
    requires a.Call? ==> Entry(|a.msg|) == e
    requires forall w :: Sends(s.Pc(w), e)
    ensures forall w :: Sends(t.Pc(w), e)
  {
    assert Sends(s.Pc(a.w), e);
    forall w ensures Sends(t.Pc(w), e) {
      assert Sends(s.Pc(w), e);
    }
  }

  lemma {:induction false} UniformPublish(s: State, w: nat, e: nat, t: State)
    requires Inv(s) && e > 0 && Uniform(s, e) && Writes(s, Publish(w)) == Some(t)
    requires Fifo(t) && Pending(t) == Pending(s) + [s.Pc(w).msg]
    ensures Uniform(t, e)
  {
    PublishFrame(s, w, t);
    SendsStep(s, Publish(w), e, t);
    assert Sends(s.Pc(w), e);
    ModSum(s.writePos, e, e);
  }

  lemma {:induction false} UniformWriterStep(s: State, a: Action, e: nat, t: State)
    requires |s.ring| > 0 && WritersOk(s) && Fifo(s) && e > 0 && Uniform(s, e)
    requires IsWrite(a) && !a.Publish?
    requires a.Call? ==> Entry(|a.msg|) == e
    requires Writes(s, a) == Some(t)
    requires a.Check? && t.Pc(a.w).Copying? ==> s.writePos + e <= s.readPos + |s.ring|
    ensures Fifo(t) && Uniform(t, e)
  {
    SendsStep(s, a, e, t);
    SameQueue(s, a, t);
    if t.lock.Held? && t.Pc(t.lock.holder).Copying? {
      if a.Copy? {
        CopyFrame(s, a.w, t);
      } else {
        LockStepFrame(s, a, t);
      }
    }
  }

  /** A writer's step other than publishing leaves positions and logs alone. */
  lemma SameQueue(s: State, a: Action, t: State)
    requires |s.ring| > 0 && IsWrite(a) && !a.Publish? && Writes(s, a) == Some(t) && Fifo(s)
    ensures t.writePos == s.writePos && t.readPos == s.readPos && |t.ring| == |s.ring|
    ensures Fifo(t) && Pending(t) == Pending(s)
  {
    assert t.Front() == s.Front() && t.published == s.published;
  }

  lemma UniformIsRoomy(s: State, a: Action, e: nat)
    requires Inv(s) && e > 0 && |s.ring| % e == 0 && e % ENTRY_ALIGN == 0 && Uniform(s, e)
    ensures RoomyStep(s, a)
  {
    if a.Check? && s.Pc(a.w).Waiting? && DrainGuard(|s.ring|, s.writePos, s.readPos) {
      UniformRoom(s, a.w, e);
    }
  }

  lemma UniformFree(s: State, a: Action, e: nat)
    requires Inv(s) && e > 0 && |s.ring| % e == 0 && e % ENTRY_ALIGN == 0 && Uniform(s, e)
    requires a.Check? && Writes(s, a).Some? && Writes(s, a).value.Pc(a.w).Copying?
    ensures s.writePos + e <= s.readPos + |s.ring|
  {
    UniformRoom(s, a.w, e);
  }

  lemma {:induction false} UniformKeeps(s: State, a: Action, e: nat, t: State)
    requires Inv(s) && e > 0 && |s.ring| % e == 0 && e % ENTRY_ALIGN == 0 && Uniform(s, e)
    requires a.Call? ==> Entry(|a.msg|) == e
    requires Next(s, a) == Some(t) && Inv(t) && Pending(t) == QueueAfter(s, a, Pending(s))
    ensures Uniform(t, e)
  {
    if IsRead(a) {
      UniformRead(s, a, e, t);
    } else if IsWrite(a) {
      UniformWrite(s, a, e, t);
    } else {
      OtherFrame(s, a, t);
      UniformReset(s, e, t);
    }
  }

  lemma {:induction false} UniformRead(s: State, a: Action, e: nat, t: State)
    requires Inv(s) && e > 0 && Uniform(s, e) && IsRead(a) && Next(s, a) == Some(t)
    ensures Fifo(t) && Uniform(t, e)
  {
    ReadSides(s, a, t);
    UniformReaderStep(s, a, e, t);
  }

  lemma {:induction false} UniformWrite(s: State, a: Action, e: nat, t: State)
    requires Inv(s) && e > 0 && |s.ring| % e == 0 && e % ENTRY_ALIGN == 0 && Uniform(s, e)
    requires IsWrite(a) && Next(s, a) == Some(t) && (a.Call? ==> Entry(|a.msg|) == e)
    requires Fifo(t) && (a.Publish? ==> Pending(t) == Pending(s) + [s.Pc(a.w).msg])
    ensures Uniform(t, e)
  {
    if a.Publish? {
      UniformPublish(s, a.w, e, t);
    } else {
      if a.Check? && t.Pc(a.w).Copying? {
        UniformFree(s, a, e);
      }
      UniformWriterStep(s, a, e, t);
    }
  }

  lemma {:induction false} UniformStep(s: State, a: Action, e: nat)
    requires Inv(s) && e > 0 && |s.ring| % e == 0 && e % ENTRY_ALIGN == 0 && Uniform(s, e)
    requires a.Call? ==> Entry(|a.msg|) == e
    requires OrderlyStep(s, a) && Next(s, a).Some?
    ensures RoomyStep(s, a)
    ensures Inv(Next(s, a).value) && Uniform(Next(s, a).value, e)
  {
    var t := Next(s, a).value;
    UniformIsRoomy(s, a, e);
    StepKeeps(s, a, t);
    UniformKeeps(s, a, e, t);
  }

  lemma UniformReset(s: State, e: nat, t: State)
    requires e > 0 && Fifo(s) && Uniform(s, e) && Fifo(t) && |t.ring| == |s.ring|
    requires t.writers == s.writers && (t.lock == s.lock || t.lock == Free)
    requires (t.writePos == s.writePos && t.readPos == s.readPos && Pending(t) == Pending(s))
          || (t.writePos == t.readPos == 0 && Pending(t) == [] && t.lock == Free)
    ensures Uniform(t, e)
  {
    assert forall w :: t.Pc(w) == s.Pc(w);
  }

  lemma EightDivides(x: nat, e: nat)
    requires e > 0 && x % e == 0 && e % ENTRY_ALIGN == 0
    ensures x % ENTRY_ALIGN == 0
  {
    var k, j := x / e, e / ENTRY_ALIGN;
    assert x == e * k;
    Blocks(e, j, k);
    WholeBlocks(x, j * k);
  }

  lemma {:induction false} UniformRuns(s: State, acts: seq<Action>, e: nat)
    requires Inv(s) && e > 0 && |s.ring| % e == 0 && e % ENTRY_ALIGN == 0 && Uniform(s, e)
    requires Traffic(acts, {e}) && Orderly(s, acts) && Exec(s, acts).Some?
    ensures Roomy(s, acts) && Fifo(Exec(s, acts).value)
    decreases |acts|
  {
    if acts != [] {
      assert acts[0] in acts;
      UniformStep(s, acts[0], e);
      UniformRuns(Next(s, acts[0]).value, acts[1..], e);
    }
  }

  // ---- a fresh ring filled by one writer ----

  /** Nobody is in the critical section and the reader has read nothing yet. */
  predicate Fresh(s: State, w: nat) {
    && |s.ring| > 0 && s.Pc(w).Idle? && !s.lock.Held?
    && s.readPos == 0 && s.Active(s.front)
    && s.Front() == Reader(s.Front().pid, 0, 0, [], Resting)
  }

  lemma {:induction false} SoloWriteFresh(s: State, w: nat, m: Message)
    requires Fresh(s, w) && |s.ring| % ENTRY_ALIGN == 0 && |s.ring| < U32 && s.writePos % ENTRY_ALIGN == 0
    requires s.writePos + Entry(|m|) <= |s.ring|
    ensures Exec(s, SoloWrite(w, m)) == Some(Written(s, w, m)) && Fresh(Written(s, w, m), w)
  {
    GuardBlocksIffFull(|s.ring|, s.writePos, 0);
    SoloWriteRun(s, w, m);
  }

  /** The run wrote ms and otherwise left everything as it found it. */
  predicate HasWritten(s: State, w: nat, ms: seq<Message>, t: State) {
    Fresh(t, w) && t.writePos == End(s.writePos, ms) && t.published == s.published + ms
    && t.max == s.max && |t.ring| == |s.ring| && t.front == s.front
  }

  lemma {:induction false} HasWrittenStep(s: State, w: nat, ms: seq<Message>, t: State)
    requires ms != [] && |s.ring| > 0 && HasWritten(Written(s, w, ms[0]), w, ms[1..], t)
    ensures HasWritten(s, w, ms, t)
  {
    assert [ms[0]] + ms[1..] == ms;
    assert s.published + ms == s.published + [ms[0]] + ms[1..];
  }

  /** Writes of ms one after the other, as long as they all fit the empty ring. */
  lemma {:induction false} SoloWritesRun(s: State, w: nat, ms: seq<Message>) returns (t: State)
    requires Fresh(s, w) && |s.ring| % ENTRY_ALIGN == 0 && |s.ring| < U32 && s.writePos % ENTRY_ALIGN == 0
    requires End(s.writePos, ms) < |s.ring|
    ensures Exec(s, SoloWrites(w, ms)) == Some(t) && HasWritten(s, w, ms, t)
    decreases |ms|
  {
    if ms == [] {
      t := s;
      assert s.published + ms == s.published;
    } else {
      FreshNext(s, w, ms);
      t := SoloWritesRun(Written(s, w, ms[0]), w, ms[1..]);
      SoloWritesNext(s, w, ms, t);
    }
  }

  lemma {:induction false} FreshNext(s: State, w: nat, ms: seq<Message>)
    requires Fresh(s, w) && |s.ring| % ENTRY_ALIGN == 0 && |s.ring| < U32 && s.writePos % ENTRY_ALIGN == 0
    requires ms != [] && End(s.writePos, ms) < |s.ring|
    ensures var u := Written(s, w, ms[0]);
            && Exec(s, SoloWrite(w, ms[0])) == Some(u) && Fresh(u, w) && |u.ring| == |s.ring|
            && u.writePos % ENTRY_ALIGN == 0 && End(u.writePos, ms[1..]) == End(s.writePos, ms)
  {
    EndOfMany(s.writePos, ms);
    SoloWriteFresh(s, w, ms[0]);
  }

  lemma EndOfMany(pos: nat, ms: seq<Message>)
    requires ms != [] && pos % ENTRY_ALIGN == 0
    ensures End(pos, ms) == End(pos + Entry(|ms[0]|), ms[1..]) >= pos + Entry(|ms[0]|)
    ensures (pos + Entry(|ms[0]|)) % ENTRY_ALIGN == 0
  {
    SumAligned(pos, Entry(|ms[0]|));
  }

  lemma {:induction false} SoloWritesNext(s: State, w: nat, ms: seq<Message>, t: State)
    requires |s.ring| > 0 && ms != [] && Exec(s, SoloWrite(w, ms[0])) == Some(Written(s, w, ms[0]))
    requires Exec(Written(s, w, ms[0]), SoloWrites(w, ms[1..])) == Some(t)
    requires HasWritten(Written(s, w, ms[0]), w, ms[1..], t)
    ensures Exec(s, SoloWrites(w, ms)) == Some(t) && HasWritten(s, w, ms, t)
  {
    ExecConcat(s, SoloWrite(w, ms[0]), SoloWrites(w, ms[1..]));
    HasWrittenStep(s, w, ms, t);
  }

  function Zeros(n: nat): (bs: seq<byte>)
    ensures |bs| == n
  {
    seq(n, _ => 0)
  }

  lemma {:induction false} ValZeros(n: nat)
    ensures Val(Zeros(n)) == 0
  {
    if n > 0 {
      ValZeros(n - 1);
      assert Zeros(n)[1..] == Zeros(n - 1);
    }
  }

  /** The longest message of entry size e, all zero. */
  function Blank(e: nat): (m: Message)
    requires ENTRY_ALIGN <= e < U32 && e % ENTRY_ALIGN == 0
    ensures |m| == e - 5 && Entry(|m|) == e
  {
    Zeros(e - 5)
  }

  /** If the ring starts with four zero bytes, the first read reports an empty message. */
  lemma {:induction false} ReadsEmpty(s: State, w: nat)
    requires Fresh(s, w) && 8 <= |s.ring| && ENTRY_ALIGN <= s.writePos < U64
    requires s.ring[..HEADER] == Zeros(HEADER)
    ensures Exec(s, SoloRead(s.front, 0)).Some?
    ensures Exec(s, SoloRead(s.front, 0)).value.Front() == Reader(s.Front().pid, 8, 0, [Delivery(0, [])], Resting)
    ensures Exec(s, SoloRead(s.front, 0)).value.published == s.published
    ensures Exec(s, SoloRead(s.front, 0)).value.max == s.max
  {
    ValZeros(HEADER);
    FetchFront(s.ring);
    SoloReadRun(s, s.front);
  }

  lemma FetchFront(ring: seq<byte>)
    requires HEADER <= |ring|
    ensures Fetch(ring, 0, HEADER) == ring[..HEADER]
  {
  }

  // ---- cells and headers ----

  lemma SameCells(ring: seq<byte>, a: nat, b: nat, n: nat)
    requires |ring| > 0 && a % |ring| == b % |ring| && n <= |ring|
    ensures Fetch(ring, a, n) == Fetch(ring, b, n)
  {
    forall i | 0 <= i < n ensures Fetch(ring, a, n)[i] == Fetch(ring, b, n)[i] {
      ModAdd(a, i, |ring|);
      ModAdd(b, i, |ring|);
    }
  }

  lemma {:induction false} SpoilsOwn(ring: seq<byte>, w: nat, c: nat, m: Message)
    requires 0 < |ring| && |Record(m)| <= |ring| && c % |ring| == w % |ring| && Entry(|m|) <= |ring|
    ensures Val(Fetch(Deposit(ring, w, Record(m)), c, HEADER)) == |m|
  {
    var after := Deposit(ring, w, Record(m));
    FetchDeposit(ring, w, Record(m));
    FetchRecord(after, w, m);
    SameCells(after, c, w, HEADER);
  }

  // ---- the exact condition ----

  /** All messages so far leave f free bytes, and the next entry needs more: then its
      blank payload wipes the oldest length header, and the next read is not FIFO. */
  lemma {:induction false} OverrunBreaksFifo(ring: seq<byte>, max: nat, ms: seq<Message>, e: nat) returns (acts: seq<Action>)
    requires 1024 <= |ring| < U32 && |ring| % ENTRY_ALIGN == 0 && max <= |ring|
    requires e % ENTRY_ALIGN == 0 && e <= |ring| && ms != [] && ms[0] != []
    requires End(0, ms) < |ring| < End(0, ms) + e && End(0, ms) % ENTRY_ALIGN == 0
    ensures acts == SoloWrites(2, ms + [Blank(e)]) + SoloRead(0, 0)
    ensures Exec(Created(ring, 1, max), acts).Some? && !Fifo(Exec(Created(ring, 1, max), acts).value)
  {
    var s, z := Created(ring, 1, max), Blank(e);
    var t := SoloWritesRun(s, 2, ms);
    GuardBlocksIffFull(|t.ring|, t.writePos, 0);
    SoloWriteRun(t, 2, z);
    var u := Written(t, 2, z);
    WipedHeader(t.ring, t.writePos, e);
    ReadsEmpty(u, 2);
    SoloWritesSnoc(2, ms, z);
    ExecConcat(s, SoloWrites(2, ms), SoloWrite(2, z));
    acts := SoloWrites(2, ms + [z]) + SoloRead(0, 0);
    ExecConcat(s, SoloWrites(2, ms + [z]), SoloRead(0, 0));
    var v := Exec(u, SoloRead(0, 0)).value;
    assert v.Front().delivered[0] != Seen(v.published[0], v.max);
  }

  lemma {:induction false} SoloWritesSnoc(w: nat, ms: seq<Message>, z: Message)
    ensures SoloWrites(w, ms + [z]) == SoloWrites(w, ms) + SoloWrite(w, z)
    decreases |ms|
  {
    if ms == [] {
      assert ms + [z] == [z];
      assert SoloWrites(w, [z][1..]) == [];
    } else {
      assert (ms + [z])[1..] == ms[1..] + [z];
      SoloWritesSnoc(w, ms[1..], z);
    }
  }

  lemma {:induction false} WipedHeader(ring: seq<byte>, w: nat, e: nat)
    requires 1024 <= |ring| < U32 && e % ENTRY_ALIGN == 0 && e <= |ring|
    requires w % ENTRY_ALIGN == 0 && |ring| % ENTRY_ALIGN == 0 && w < |ring| < w + e
    ensures Deposit(ring, w, Record(Blank(e)))[..HEADER] == Zeros(HEADER)
  {
    forall j | 0 <= j < HEADER
      ensures Deposit(ring, w, Record(Blank(e)))[j] == 0
    {
      WipedByte(ring, w, e, j);
    }
  }

  lemma {:induction false} WipedByte(ring: seq<byte>, w: nat, e: nat, j: nat)
    requires 1024 <= |ring| < U32 && e % ENTRY_ALIGN == 0 && e <= |ring| && j < HEADER
    requires w % ENTRY_ALIGN == 0 && |ring| % ENTRY_ALIGN == 0 && w < |ring| < w + e
    ensures Deposit(ring, w, Record(Blank(e)))[j] == 0
  {
    var z := Blank(e);
    ModUnique(w, 0, w, |ring|);
    var d := Ahead(j, w, |ring|);
    assert d == j - w + |ring|;
    AlignedApart(w, |ring|);
    SumAligned(w, e);
    AlignedApart(|ring|, w + e);
    assert Record(z)[d] == z[d - HEADER];
  }

  function Repeat(m: Message, n: nat): (ms: seq<Message>)
    ensures |ms| == n
    ensures n > 0 ==> ms[0] == m
    ensures forall i | 0 <= i < n :: ms[i] == m
  {
    seq(n, _ => m)
  }

  lemma {:induction false} EndRepeat(pos: nat, m: Message, n: nat)
    ensures End(pos, Repeat(m, n)) == pos + n * Entry(|m|)
    decreases n
  {
    if n > 0 {
      assert Repeat(m, n)[1..] == Repeat(m, n - 1);
      EndRepeat(pos + Entry(|m|), m, n - 1);
    }
  }

  lemma {:induction false} EndSnoc(pos: nat, ms: seq<Message>, m: Message)
    ensures End(pos, ms + [m]) == End(pos, ms) + Entry(|m|)
    decreases |ms|
  {
    if ms == [] {
      assert ms + [m] == [m];
    } else {
      assert (ms + [m])[1..] == ms[1..] + [m];
      EndSnoc(pos + Entry(|ms[0]|), ms[1..], m);
    }
  }

  lemma {:induction false} SoloTraffic(w: nat, ms: seq<Message>, sizes: set<nat>)
    requires forall i | 0 <= i < |ms| :: Entry(|ms[i]|) in sizes
    ensures Traffic(SoloWrites(w, ms), sizes)
    ensures forall a | a in SoloWrites(w, ms) :: !a.Claim?
    decreases |ms|
  {
    if ms != [] {
      SoloTraffic(w, ms[1..], sizes);
      assert Entry(|ms[0]|) in sizes;
    }
  }

  lemma {:induction false} NoClaimsOrderly(s: State, acts: seq<Action>)
    requires |s.ring| > 0 && forall a | a in acts :: !a.Claim?
    ensures Orderly(s, acts)
    decreases |acts|
  {
    if acts != [] {
      assert acts[0] in acts;
      if Next(s, acts[0]).Some? {
        NoClaimsOrderly(Next(s, acts[0]).value, acts[1..]);
      }
    }
  }

  /** Traffic that is not of one size dividing the ring can fill the ring up to a gap
      smaller than one of its own entries. */
  lemma {:induction false} GapExists(sizes: set<nat>, cap: nat) returns (ms: seq<Message>, e: nat)
    requires 1024 <= cap < U32 && cap % ENTRY_ALIGN == 0 && AcceptedSizes(sizes, cap)
    requires !OneDivisor(sizes, cap)
    ensures e in sizes && ms != [] && ms[0] != [] && End(0, ms) % ENTRY_ALIGN == 0
    ensures forall i | 0 <= i < |ms| :: Entry(|ms[i]|) in sizes
    ensures End(0, ms) < cap < End(0, ms) + e
  {
    if d: nat :| d in sizes && cap % d != 0 {
      e := d;
      ms := GapOfRemainder(d, cap);
    } else {
      var x :| x in sizes;
      assert cap % x == 0;
      var y := OtherSize(sizes, x, cap);
      assert cap % y == 0;
      e := if x < y then y else x;
      var few := AllButLast(e, cap);
      ms := GapOfMixture(if x < y then x else y, e, cap, few);
    }
  }

  /** As many entries of size d as fit, when d does not divide the ring. */
  lemma {:induction false} GapOfRemainder(d: nat, cap: nat) returns (ms: seq<Message>)
    requires 0 < cap < U32 && d % ENTRY_ALIGN == 0 && ENTRY_ALIGN <= d <= cap && cap % d != 0
    ensures ms != [] && ms[0] != [] && End(0, ms) % ENTRY_ALIGN == 0
    ensures forall i | 0 <= i < |ms| :: Entry(|ms[i]|) == d
    ensures End(0, ms) < cap < End(0, ms) + d
  {
    var n := cap / d;
    Quotient(cap, d);
    ms := Repeat(Blank(d), n);
    EndRepeat(0, Blank(d), n);
    MultipleOfEight(n, d);
  }

  /** Large entries up to the last one, then a small one instead. */
  lemma {:induction false} GapOfMixture(a: nat, b: nat, cap: nat, few: seq<Message>) returns (ms: seq<Message>)
    requires a % ENTRY_ALIGN == 0 && b % ENTRY_ALIGN == 0 && ENTRY_ALIGN <= a < b <= cap < U32
    requires cap % ENTRY_ALIGN == 0 && End(0, few) == cap - b
    requires forall i | 0 <= i < |few| :: Entry(|few[i]|) == b && few[i] != []
    ensures ms != [] && ms[0] != [] && End(0, ms) % ENTRY_ALIGN == 0
    ensures forall i | 0 <= i < |ms| :: Entry(|ms[i]|) == a || Entry(|ms[i]|) == b
    ensures End(0, ms) < cap < End(0, ms) + b
  {
    ms := few + [Blank(a)];
    EndSnoc(0, few, Blank(a));
    EightApart(a, b, cap);
    MixedSizes(few, Blank(a), a, b);
  }

  lemma EightApart(a: nat, b: nat, cap: nat)
    requires a % ENTRY_ALIGN == 0 && b % ENTRY_ALIGN == 0 && cap % ENTRY_ALIGN == 0 && b <= cap
    ensures (cap - b + a) % ENTRY_ALIGN == 0
  {
  }

  lemma MixedSizes(few: seq<Message>, z: Message, a: nat, b: nat)
    requires Entry(|z|) == a && forall i | 0 <= i < |few| :: Entry(|few[i]|) == b
    ensures forall i | 0 <= i < |few + [z]| :: Entry(|(few + [z])[i]|) == a || Entry(|(few + [z])[i]|) == b
  {
    forall i | 0 <= i < |few + [z]|
      ensures Entry(|(few + [z])[i]|) == a || Entry(|(few + [z])[i]|) == b
    {
      assert i < |few| ==> (few + [z])[i] == few[i];
    }
  }

  lemma {:induction false} AllButLast(b: nat, cap: nat) returns (ms: seq<Message>)
    requires b % ENTRY_ALIGN == 0 && 2 * ENTRY_ALIGN <= b <= cap < U32 && cap % b == 0
    ensures End(0, ms) == cap - b
    ensures forall i | 0 <= i < |ms| :: Entry(|ms[i]|) == b && ms[i] != []
  {
    var n := AllButOne(cap, b);
    ms := Repeat(Blank(b), n);
    EndRepeat(0, Blank(b), n);
  }

  lemma AllButOne(cap: nat, b: nat) returns (n: nat)
    requires 0 < b <= cap && cap % b == 0
    ensures n * b == cap - b
  {
    Quotient(cap, b);
    n := cap / b - 1;
    assert n * b == (cap / b) * b - b;
  }

  lemma Quotient(x: nat, d: nat)
    requires 0 < d <= x
    ensures x / d >= 1 && x == (x / d) * d + x % d
  {
  }

  lemma MultipleOfEight(n: nat, d: nat)
    requires d % ENTRY_ALIGN == 0
    ensures (n * d) % ENTRY_ALIGN == 0
  {
    Blocks(d, d / ENTRY_ALIGN, n);
    assert n * d == d * n;
    WholeBlocks(n * d, d / ENTRY_ALIGN * n);
  }

  lemma OnlySize(sizes: set<nat>, x: nat, cap: nat)
    requires x in sizes && x > 0 && cap % x == 0 && forall z | z in sizes :: z == x
    ensures OneDivisor(sizes, cap)
  {
    assert sizes == {x};
  }

  lemma OtherSize(sizes: set<nat>, x: nat, cap: nat) returns (y: nat)
    requires x in sizes && AcceptedSizes(sizes, cap) && !OneDivisor(sizes, cap) && cap % x == 0
    ensures y in sizes && y != x
  {
    if forall z | z in sizes :: z == x {
      OnlySize(sizes, x, cap);
    }
    y :| y in sizes && y != x;
  }

  /** FIFO after every run of the code as it stands, under traffic of these sizes. */
  ghost predicate AlwaysFifo(s: State, sizes: set<nat>)
    requires |s.ring| > 0
  {
    forall acts | Traffic(acts, sizes) && Orderly(s, acts) && Exec(s, acts).Some? ::
      Fifo(Exec(s, acts).value)
  }

  lemma {:induction false} OneDivisorSuffices(ring: seq<byte>, max: nat, e: nat)
    requires 1024 <= |ring| < U32 && |ring| % ENTRY_ALIGN == 0 && max <= |ring|
    requires e > 0 && e % ENTRY_ALIGN == 0 && |ring| % e == 0
    ensures AlwaysFifo(Created(ring, 1, max), {e})
  {
    var s := Created(ring, 1, max);
    CreatedInv(ring, 1, max);
    assert Uniform(s, e);
    forall acts | Traffic(acts, {e}) && Orderly(s, acts) && Exec(s, acts).Some?
      ensures Fifo(Exec(s, acts).value)
    {
      UniformRuns(s, acts, e);
    }
  }

  /** FIFO holds over every run of the code as it stands, under traffic of the given
      entry sizes, exactly when there is a single size and it divides the ring. */
  lemma {:induction false} FifoIffOneDivisor(ring: seq<byte>, max: nat, sizes: set<nat>)
    requires 1024 <= |ring| < U32 && |ring| % ENTRY_ALIGN == 0 && max <= |ring|
    requires AcceptedSizes(sizes, |ring|)
    ensures AlwaysFifo(Created(ring, 1, max), sizes) <==> OneDivisor(sizes, |ring|)
  {
    if OneDivisor(sizes, |ring|) {
      var e: nat :| e > 0 && sizes == {e} && |ring| % e == 0;
      assert e in sizes;
      OneDivisorSuffices(ring, max, e);
    } else {
      var acts := BreakingRun(ring, max, sizes);
    }
  }

  lemma {:induction false} BreakingRun(ring: seq<byte>, max: nat, sizes: set<nat>) returns (acts: seq<Action>)
    requires 1024 <= |ring| < U32 && |ring| % ENTRY_ALIGN == 0 && max <= |ring|
    requires AcceptedSizes(sizes, |ring|) && !OneDivisor(sizes, |ring|)
    ensures Traffic(acts, sizes) && Orderly(Created(ring, 1, max), acts)
    ensures Exec(Created(ring, 1, max), acts).Some? && !Fifo(Exec(Created(ring, 1, max), acts).value)
  {
    var ms, e := GapExists(sizes, |ring|);
    acts := OverrunBreaksFifo(ring, max, ms, e);
    var writes := SoloWrites(2, ms + [Blank(e)]);
    SoloTraffic(2, ms + [Blank(e)], sizes);
    forall a | a in acts
      ensures !a.Claim? && (a.Call? ==> Entry(|a.msg|) in sizes)
    {
      assert a in writes || a in SoloRead(0, 0);
    }
    NoClaimsOrderly(Created(ring, 1, max), acts);
  }
}
