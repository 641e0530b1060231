/** Runs under the exact condition on writes: a copy starts only if the queue with the new
    record is clean.  Room is a special case; overfull rings are covered too. */
module BucketExact {
  import opened Bytes
  import opened Wrappers
  import opened Ring
  import opened BucketProtocol
  import opened BucketGuard
  import opened BucketOverrun

  // ---- how long a clean queue can be ----

  predicate Empties(lens: seq<nat>, n: nat)
    requires n <= |lens|
  {
    forall i | 0 <= i < n :: lens[i] == 0
  }

  /** A queue begins with at most one lap of empty messages. */
  ghost predicate ShortStart(cap: nat, lens: seq<nat>) {
    forall n: nat | n <= |lens| && Empties(lens, n) :: ENTRY_ALIGN * n <= cap
  }

  /** What a run keeps of its queue, the record being copied included. */
  ghost predicate Tidy(cap: nat, r: nat, lens: seq<nat>) {
    1024 <= cap && Sized(cap, r, lens) && Clean(cap, r, lens) && ShortStart(cap, lens)
  }

  lemma Laps(cap: nat, a: nat, k: nat)
    requires cap > 0
    ensures (a + cap * k) % cap == a % cap
  {
    assert a == cap * (a / cap) + a % cap;
    assert cap * (a / cap + k) == cap * (a / cap) + cap * k;
    ModUnique(a + cap * k, a / cap + k, a % cap, cap);
  }

  /** In a clean queue no record comes round to a cell of an earlier one, unless both
      messages are empty. */
  lemma {:induction false} ComesRound(cap: nat, r: nat, lens: seq<nat>, i: nat, j: nat, x: nat, y: nat, k: nat)
    requires cap > 0 && Clean(cap, r, lens) && i < j < |lens|
    requires x < HEADER + lens[i] && y < HEADER + lens[j] && (lens[i] > 0 || lens[j] > 0)
    ensures At(r, lens, j) + y != At(r, lens, i) + x + cap * k
  {
    var p, q := At(r, lens, i), At(r, lens, j);
    assert CompatibleAt(cap, r, lens, i, j);
    assert !Overlap(cap, p, HEADER + lens[i], q, HEADER + lens[j]);
    assert Cell(cap, p, x) != Cell(cap, q, y);
    Laps(cap, p + x, k);
  }

  /** So a later record that starts ahead of such a cell ends ahead of it. */
  lemma {:induction false} EndsAhead(cap: nat, r: nat, lens: seq<nat>, i: nat, j: nat, x: nat, k: nat, q: nat)
    requires cap > 0 && Clean(cap, r, lens) && i < j < |lens|
    requires x < HEADER + lens[i] && lens[i] > 0 && q == At(r, lens, i) + x + cap * k && At(r, lens, j) <= q
    ensures At(r, lens, j) + HEADER + lens[j] <= q
  {
    if q < At(r, lens, j) + HEADER + lens[j] {
      ComesRound(cap, r, lens, i, j, x, q - At(r, lens, j), k);
    }
  }

  lemma {:induction false} AfterEmpties(r: nat, lens: seq<nat>, i: nat, j: nat)
    requires i <= j <= |lens| && forall k | i <= k < j :: lens[k] == 0
    ensures At(r, lens, j) == At(r, lens, i) + ENTRY_ALIGN * (j - i)
    decreases j
  {
    if i < j {
      AfterEmpties(r, lens, i, j - 1);
    }
  }

  lemma {:induction false} Covering(r: nat, lens: seq<nat>, p: nat, n: nat) returns (z: nat)
    requires n <= |lens| && r <= p < At(r, lens, n)
    ensures z < n && At(r, lens, z) <= p < At(r, lens, z + 1)
    decreases n
  {
    if At(r, lens, n - 1) <= p {
      z := n - 1;
    } else {
      z := Covering(r, lens, p, n - 1);
    }
  }

  /** Of an entry that reaches past an aligned position, only the padding can. */
  lemma OnlyPadding(a: nat, len: nat, q: nat)
    requires a % ENTRY_ALIGN == 0 && q % ENTRY_ALIGN == 0 && a + HEADER + len <= q < a + Entry(len)
    ensures a + HEADER + len == q && a + Entry(len) == q + ENTRY_ALIGN && len >= HEADER
  {
  }

  lemma EndsAtBlock(b: nat, len: nat, q: nat)
    requires b % ENTRY_ALIGN == 0 && q % ENTRY_ALIGN == 0 && b + HEADER + len <= q + HEADER && q < b + Entry(len)
    ensures b + Entry(len) == q + ENTRY_ALIGN
  {
  }

  /** The entry that reaches past the first lap of a non-empty message f does so with its
      padding alone. */
  lemma {:induction false} FirstLap(cap: nat, r: nat, lens: seq<nat>, f: nat, z: nat, q: nat)
    requires Sized(cap, r, lens) && Clean(cap, r, lens) && f < z < |lens| && lens[f] > 0
    requires q == At(r, lens, f) + cap && q % ENTRY_ALIGN == 0
    requires At(r, lens, z) <= q < At(r, lens, z + 1)
    ensures At(r, lens, z) + HEADER + lens[z] == q && lens[z] >= HEADER && At(r, lens, z + 1) == q + ENTRY_ALIGN
  {
    AtAligned(cap, r, lens, z);
    EndsAhead(cap, r, lens, f, z, 0, 1, q);
    OnlyPadding(At(r, lens, z), lens[z], q);
  }

  /** The next lap ends exactly where message f starts again: the last four payload bytes
      of z keep any record away from the block in front. */
  lemma {:induction false} SecondLap(cap: nat, r: nat, lens: seq<nat>, z: nat, y: nat, q: nat)
    requires Sized(cap, r, lens) && Clean(cap, r, lens) && z < y < |lens| && lens[z] >= HEADER
    requires q + HEADER == At(r, lens, z) + lens[z] + cap && q % ENTRY_ALIGN == 0
    requires At(r, lens, y) <= q < At(r, lens, y + 1)
    ensures At(r, lens, y + 1) == q + ENTRY_ALIGN
  {
    AtAligned(cap, r, lens, y);
    EndsAhead(cap, r, lens, z, y, lens[z], 1, q + HEADER);
    EndsAtBlock(At(r, lens, y), lens[y], q);
  }

  /** Behind a non-empty message a clean queue has two laps at most. */
  lemma {:induction false} TwoLaps(cap: nat, r: nat, lens: seq<nat>, f: nat)
    requires Sized(cap, r, lens) && Clean(cap, r, lens) && f < |lens| && lens[f] > 0 && cap >= 16
    ensures At(r, lens, |lens|) <= At(r, lens, f) + 2 * cap
  {
    var p, n := At(r, lens, f), |lens|;
    if At(r, lens, n) > p + 2 * cap {
      AtAligned(cap, r, lens, f);
      var q1, q2 := p + cap, p + 2 * cap - ENTRY_ALIGN;
      BlocksAligned(cap, p);
      var z := Covering(r, lens, q1, n);
      LaterThan(r, lens, f, z, q1);
      FirstLap(cap, r, lens, f, z, q1);
      var y := Covering(r, lens, q2, n);
      LaterThan(r, lens, z, y, q2);
      SecondLap(cap, r, lens, z, y, q2);
      ComesRound(cap, r, lens, f, y + 1, 0, 0, 2);
    }
  }

  lemma BlocksAligned(cap: nat, p: nat)
    requires cap >= 16 && cap % ENTRY_ALIGN == 0 && p % ENTRY_ALIGN == 0
    ensures (p + cap) % ENTRY_ALIGN == 0 && (p + 2 * cap - ENTRY_ALIGN) % ENTRY_ALIGN == 0
  {
    BlockLess(cap);
    SumAligned(p, cap);
    SumAligned(p + cap, cap - ENTRY_ALIGN);
  }

  lemma BlockLess(cap: nat)
    requires cap >= ENTRY_ALIGN && cap % ENTRY_ALIGN == 0
    ensures (cap - ENTRY_ALIGN) % ENTRY_ALIGN == 0
  {
  }

  lemma LaterThan(r: nat, lens: seq<nat>, i: nat, j: nat, p: nat)
    requires i < |lens| && j < |lens| && At(r, lens, i + 1) <= p < At(r, lens, j + 1)
    ensures i < j
  {
    if j < i {
      AtMonotone(r, lens, j, i);
    }
  }

  lemma {:induction false} FirstNonEmpty(lens: seq<nat>, n: nat) returns (f: nat)
    requires n <= |lens| && Empties(lens, n)
    ensures f <= |lens| && Empties(lens, f) && (f < |lens| ==> lens[f] > 0)
    decreases |lens| - n
  {
    if n == |lens| || lens[n] > 0 {
      f := n;
    } else {
      f := FirstNonEmpty(lens, n + 1);
    }
  }

  /** So the queue of a run never reaches beyond three laps. */
  lemma {:induction false} ThreeLaps(cap: nat, r: nat, lens: seq<nat>)
    requires Tidy(cap, r, lens)
    ensures At(r, lens, |lens|) <= r + 3 * cap
  {
    var f := FirstNonEmpty(lens, 0);
    AfterEmpties(r, lens, 0, f);
    if f < |lens| {
      TwoLaps(cap, r, lens, f);
    }
  }

  // ---- taking one off, putting one on ----

  lemma {:induction false} StartBehind(cap: nat, r: nat, lens: seq<nat>, n: nat)
    requires Tidy(cap, r, lens) && n < |lens| && forall i | 0 < i <= n :: lens[i] == 0
    ensures ENTRY_ALIGN * n <= cap
  {
    if lens[0] == 0 {
      assert Empties(lens, n);
    } else if ENTRY_ALIGN * n > cap {
      var j := (cap - Entry(lens[0])) / ENTRY_ALIGN;
      assert cap == Entry(lens[0]) + ENTRY_ALIGN * j;
      AfterEmpties(r, lens, 1, 1 + j);
      assert At(r, lens, 1) == r + Entry(lens[0]);
      ComesRound(cap, r, lens, 0, 1 + j, 0, 0, 1);
    }
  }

  lemma {:induction false} TidyTail(cap: nat, r: nat, lens: seq<nat>)
    requires Tidy(cap, r, lens) && lens != []
    ensures Tidy(cap, r + Entry(lens[0]), lens[1..])
  {
    var tail := lens[1..];
    CleanTail(cap, r, lens);
    forall n: nat | n <= |tail| && Empties(tail, n) ensures ENTRY_ALIGN * n <= cap {
      forall i | 0 < i <= n ensures lens[i] == 0 {
        assert tail[i - 1] == 0;
      }
      StartBehind(cap, r, lens, n);
    }
  }

  lemma {:induction false} TidyMore(cap: nat, r: nat, lens: seq<nat>, len: nat)
    requires Tidy(cap, r, lens) && Entry(len) <= cap && Clean(cap, r, lens + [len])
    requires At(r, lens, |lens|) != r + cap
    ensures Tidy(cap, r, lens + [len])
  {
    var all := lens + [len];
    forall n: nat | n <= |all| && Empties(all, n) ensures ENTRY_ALIGN * n <= cap {
      assert forall i | 0 <= i < n && i < |lens| :: all[i] == lens[i];
      if n <= |lens| {
        assert Empties(lens, n);
      } else {
        assert Empties(lens, |lens|);
        AfterEmpties(r, lens, 0, |lens|);
      }
    }
  }

  lemma {:induction false} TidyNone(cap: nat, r: nat)
    requires 1024 <= cap < U32 && cap % ENTRY_ALIGN == 0 && r % ENTRY_ALIGN == 0
    ensures Tidy(cap, r, [])
  {
  }

  // ---- one byte of a compatible record ----

  lemma OverlapPart(cap: nat, p: nat, n: nat, q: nat, k: nat, d: nat)
    requires cap > 0 && d < k && !Overlap(cap, p, n, q, k)
    ensures !Overlap(cap, p, n, q + d, 1)
  {
    var at := q + d;
    forall x: nat, y: nat | x < n && y < 1 ensures Cell(cap, p, x) != Cell(cap, at, y) {
      assert Cell(cap, at, y) == Cell(cap, q, d);
    }
  }

  /** Writing what is already there. */
  lemma SameByte(ring: seq<byte>, w: nat, d: nat, p: nat, was: Message, b: byte)
    requires 0 < |ring| && Fetch(ring, p, |Record(was)|) == Record(was) && p % |ring| == w % |ring|
    requires d < |Record(was)| && d < |ring| && b == Record(was)[d]
    ensures Deposit(ring, w + d, [b]) == ring
  {
    SameCellAfter(|ring|, p, w, d);
    CellIsDeposit(ring, w + d, b);
    assert Fetch(ring, p, |Record(was)|)[d] == ring[(p + d) % |ring|];
  }

  lemma ByteApart(ring: seq<byte>, w: nat, m: Message, d: nat, p: nat, was: Message)
    requires 0 < |ring| && |Record(m)| <= |ring| && d < |Record(m)|
    requires Fetch(ring, p, |Record(was)|) == Record(was) && Compatible(|ring|, p, |was|, w, |m|)
    ensures Fetch(Deposit(ring, w + d, [Record(m)[d]]), p, |Record(was)|) == Record(was)
  {
    if Overlap(|ring|, p, HEADER + |was|, w, HEADER + |m|) {
      assert was == m;
      SameByte(ring, w, d, p, was, Record(m)[d]);
    } else {
      OverlapPart(|ring|, p, HEADER + |was|, w, HEADER + |m|, d);
      FetchApart(ring, w + d, [Record(m)[d]], p, |Record(was)|);
    }
  }

  /** A queue stays whole while a record that is compatible with it is being copied. */
  lemma {:induction false} ByteKeeps(ring: seq<byte>, r: nat, ms: seq<Message>, m: Message, d: nat)
    requires |ring| > 0 && Clean(|ring|, r, Lengths(ms) + [|m|]) && Holds(ring, r, ms)
    requires d < |Record(m)| <= |ring|
    ensures Holds(Deposit(ring, End(r, ms) + d, [Record(m)[d]]), r, ms)
  {
    var lens, w := Lengths(ms), End(r, ms);
    var after := Deposit(ring, w + d, [Record(m)[d]]);
    EndIsAt(r, ms);
    HoldsIff(ring, r, ms);
    forall i: nat | i < |ms| ensures Intact(after, r, ms, i) {
      assert Intact(ring, r, ms, i);
      assert CompatibleAt(|ring|, r, lens + [|m|], i, |ms|);
      CompatibleWithNew(|ring|, r, lens, |m|, i);
      ByteApart(ring, w, m, d, At(r, lens, i), ms[i]);
    }
    HoldsIff(after, r, ms);
  }

  // ---- the condition on runs ----

  /** A copy starts only if the queue in the ring, with the new record, is clean. */
  ghost predicate CleanCopy(s: State, a: Action)
    requires |s.ring| > 0
  {
    a.Check? && s.Pc(a.w).Waiting? && DrainGuard(|s.ring|, s.writePos, s.readPos) ==>
      var queue := Unread(s.ring, s.readPos, s.writePos);
      queue.Some? ==> Clean(|s.ring|, s.readPos, Lengths(queue.value) + [|s.Pc(a.w).msg|])
  }

  ghost predicate CleanCopies(s: State, acts: seq<Action>)
    requires |s.ring| > 0
    decreases |acts|
  {
    acts != [] ==>
      && CleanCopy(s, acts[0])
      && (Next(s, acts[0]).Some? ==> CleanCopies(Next(s, acts[0]).value, acts[1..]))
  }

  /** A copy with room is such a copy, in any state. */
  lemma {:induction false} RoomIsClean(s: State, a: Action)
    requires |s.ring| > 0 && RoomyStep(s, a)
    ensures CleanCopy(s, a)
  {
    var queue := Unread(s.ring, s.readPos, s.writePos);
    if a.Check? && s.Pc(a.w).Waiting? && DrainGuard(|s.ring|, s.writePos, s.readPos) && queue.Some? {
      UnreadIff(s.ring, s.readPos, s.writePos, queue.value);
      EndIsAt(s.readPos, queue.value);
      RoomClean(|s.ring|, s.readPos, Lengths(queue.value), |s.Pc(a.w).msg|);
    }
  }

  lemma {:induction false} RoomyIsClean(s: State, acts: seq<Action>)
    requires |s.ring| > 0 && Roomy(s, acts)
    ensures CleanCopies(s, acts)
    decreases |acts|
  {
    if acts != [] {
      RoomIsClean(s, acts[0]);
      if Next(s, acts[0]).Some? {
        RoomyIsClean(Next(s, acts[0]).value, acts[1..]);
      }
    }
  }

  // ---- the invariant ----

  ghost predicate Neat(s: State)
    requires Fifo(s)
  {
    Tidy(|s.ring|, s.readPos, Lengths(Pending(s)))
  }

  /** The queue with one more record of this length is tidy too. */
  ghost predicate Ready(s: State, len: nat)
    requires Fifo(s)
  {
    Tidy(|s.ring|, s.readPos, Lengths(Pending(s)) + [len])
  }

  ghost predicate CopyFits(s: State)
    requires |s.ring| > 0 && Fifo(s)
  {
    s.lock.Held? && s.Pc(s.lock.holder).Copying? ==>
      var pc := s.Pc(s.lock.holder);
      && pc.done <= |Record(pc.msg)|
      && Ready(s, |pc.msg|)
      && Fetch(s.ring, s.writePos, pc.done) == Record(pc.msg)[..pc.done]
  }

  ghost predicate ExactInv(s: State) {
    SizesOk(s) && ReadersOk(s) && WritersOk(s) && QueueOk(s) && ReadOk(s) && Neat(s) && CopyFits(s)
  }

  // ---- every step keeps it ----

  lemma {:induction false} RestTidy(cap: nat, r: nat, ms: seq<Message>, len: nat)
    requires ms != [] && Tidy(cap, r, Lengths(ms) + [len])
    ensures Tidy(cap, r + Entry(|ms[0]|), Lengths(ms[1..]) + [len])
  {
    var all := Lengths(ms) + [len];
    TidyTail(cap, r, all);
    assert all[1..] == Lengths(ms[1..]) + [len] && all[0] == |ms[0]|;
  }

  lemma {:induction false} RestNeat(cap: nat, r: nat, ms: seq<Message>)
    requires ms != [] && Tidy(cap, r, Lengths(ms))
    ensures Tidy(cap, r + Entry(|ms[0]|), Lengths(ms[1..]))
  {
    TidyTail(cap, r, Lengths(ms));
    assert Lengths(ms)[1..] == Lengths(ms[1..]);
  }

  /** Taking the head off keeps both the queue and the copy behind it. */
  lemma {:induction false} ConsumedFits(s: State, t: State)
    requires |s.ring| > 0 && Fifo(s) && Neat(s) && CopyFits(s) && Pending(s) != []
    requires t.ring == s.ring && t.writePos == s.writePos && t.lock == s.lock && t.writers == s.writers
    requires Fifo(t) && Pending(t) == Pending(s)[1..] && t.readPos == s.readPos + Entry(|Pending(s)[0]|)
    ensures Neat(t) && CopyFits(t)
  {
    RestNeat(|s.ring|, s.readPos, Pending(s));
    if s.lock.Held? && s.Pc(s.lock.holder).Copying? {
      RestTidy(|s.ring|, s.readPos, Pending(s), |s.Pc(s.lock.holder).msg|);
    }
  }

  /** So does anything that leaves the queue, the lock and the writers alone. */
  lemma SameFits(s: State, t: State)
    requires |s.ring| > 0 && Fifo(s) && Neat(s) && CopyFits(s)
    requires t.ring == s.ring && t.writePos == s.writePos && t.lock == s.lock && t.writers == s.writers
    requires Fifo(t) && Pending(t) == Pending(s) && t.readPos == s.readPos
    ensures Neat(t) && CopyFits(t)
  {
  }

  lemma {:induction false} ExactRead(s: State, a: Action, t: State)
    requires ExactInv(s) && IsRead(a) && Reads(s, a) == Some(t)
    ensures ExactInv(t) && !a.Abort? && (a.Consume? ==> Pending(s) != [])
    ensures Pending(t) == if a.Consume? then Pending(s)[1..] else Pending(s)
  {
    ReadSides(s, a, t);
    ReaderQueue(s, a, t);
    if a.Consume? {
      ConsumedFits(s, t);
    } else {
      SameFits(s, t);
    }
  }

  lemma {:induction false} ExactCopy(s: State, w: nat, t: State)
    requires ExactInv(s) && Writes(s, Copy(w)) == Some(t)
    ensures QueueOk(t) && Neat(t) && CopyFits(t) && Pending(t) == Pending(s)
  {
    CopyFrame(s, w, t);
    var pc := s.Pc(w);
    assert Ready(s, |pc.msg|) && s.writePos == End(s.readPos, Pending(s));
    ByteKeeps(s.ring, s.readPos, Pending(s), pc.msg, pc.done);
    CopiedQueue(s, t);
    CopyGoesOn(s, w, t);
  }

  lemma CopyGoesOn(s: State, w: nat, t: State)
    requires |s.ring| > 0 && Fifo(s) && Neat(s) && CopyFits(s) && s.lock == Held(w) && s.Pc(w).Copying?
    requires var pc := s.Pc(w);
             && pc.done < |Record(pc.msg)| <= |s.ring| && t.Pc(w) == Copying(pc.msg, pc.done + 1)
             && t.ring == Deposit(s.ring, s.writePos + pc.done, [Record(pc.msg)[pc.done]])
    requires t.lock == s.lock && t.readPos == s.readPos && t.writePos == s.writePos
    requires Fifo(t) && Pending(t) == Pending(s)
    ensures Neat(t) && CopyFits(t)
  {
    CopiedOneMore(s.ring, s.writePos, s.Pc(w).msg, s.Pc(w).done);
  }

  lemma CopiedQueue(s: State, t: State)
    requires |s.ring| > 0 && QueueOk(s) && SameHandles(s, t) && Holds(t.ring, s.readPos, Pending(s))
    requires t.writePos == s.writePos && t.published == s.published
    ensures QueueOk(t) && Pending(t) == Pending(s)
  {
    assert t.Front() == s.Front();
  }

  lemma {:induction false} ExactPublish(s: State, w: nat, t: State)
    requires ExactInv(s) && Writes(s, Publish(w)) == Some(t)
    ensures QueueOk(t) && Neat(t) && CopyFits(t)
    ensures s.Pc(w).Copying? && Pending(t) == Pending(s) + [s.Pc(w).msg]
  {
    PublishFrame(s, w, t);
    var m := s.Pc(w).msg;
    assert Ready(s, |m|);
    assert Record(m)[..|Record(m)|] == Record(m);
    PublishedQueue(s, m, t);
    JoinedTidy(|s.ring|, s.readPos, Pending(s), m);
  }

  /** A queue that a record has joined, and how far it reaches. */
  lemma {:induction false} JoinedTidy(cap: nat, r: nat, ms: seq<Message>, m: Message)
    requires Tidy(cap, r, Lengths(ms) + [|m|])
    ensures Tidy(cap, r, Lengths(ms + [m])) && End(r, ms + [m]) <= r + 3 * cap
  {
    SnocLengths(ms, m);
    EndIsAt(r, ms + [m]);
    ThreeLaps(cap, r, Lengths(ms + [m]));
  }

  /** A test that passes before such a copy makes it ready. */
  lemma {:induction false} ReadyToCopy(s: State, w: nat)
    requires ExactInv(s) && CleanCopy(s, Check(w)) && s.Pc(w).Waiting? && DrainGuard(|s.ring|, s.writePos, s.readPos)
    ensures Ready(s, |s.Pc(w).msg|)
  {
    var lens := Lengths(Pending(s));
    QueueInRing(s);
    EndIsAt(s.readPos, Pending(s));
    ThreeLaps(|s.ring|, s.readPos, lens);
    AtAligned(|s.ring|, s.readPos, lens, |lens|);
    GuardFails(|s.ring|, s.writePos, s.readPos);
    TidyMore(|s.ring|, s.readPos, lens, |s.Pc(w).msg|);
  }

  lemma GuardFails(cap: nat, w: nat, r: nat)
    requires 0 < cap < U32 && DrainGuard(cap, w, r)
    ensures w != r + cap
  {
  }

  lemma {:induction false} ExactLockStep(s: State, a: Action, t: State)
    requires ExactInv(s) && CleanCopy(s, a) && IsLockStep(a) && Writes(s, a) == Some(t)
    ensures QueueOk(t) && Neat(t) && CopyFits(t) && Pending(t) == Pending(s)
  {
    WriteFrame(s, a, t);
    QueueSame(s, t);
    if t.lock.Held? && t.Pc(t.lock.holder).Copying? {
      LockStepFrame(s, a, t);
      if t.Pc(t.lock.holder) != s.Pc(t.lock.holder) {
        ReadyToCopy(s, a.w);
      }
    }
  }

  lemma {:induction false} ExactWrite(s: State, a: Action, t: State)
    requires ExactInv(s) && CleanCopy(s, a) && IsWrite(a) && Writes(s, a) == Some(t)
    ensures ExactInv(t) && (a.Publish? ==> s.Pc(a.w).Copying?)
    ensures Pending(t) == if a.Publish? then Pending(s) + [s.Pc(a.w).msg] else Pending(s)
  {
    WritersKeep(s, a, t);
    WriteSides(s, a, t);
    if a.Copy? {
      ExactCopy(s, a.w, t);
    } else if a.Publish? {
      ExactPublish(s, a.w, t);
    } else {
      ExactLockStep(s, a, t);
    }
    ReadKeeps(s, t);
  }

  lemma {:induction false} ExactClaim(s: State, h: nat, p: nat, t: State)
    requires ExactInv(s) && OrderlyStep(s, Claim(h, p)) && Claims(s, h, p) == Some(t)
    ensures ExactInv(t) && Pending(t) == if Resets(s, p) then [] else Pending(s)
  {
    if Takes(s, p) {
      OrderlyTakesReset(s, h, p);
      ResetKeeps(s, h, p, t);
      ResetFits(s, t);
    } else {
      RefusedClaim(s, t);
    }
  }

  lemma ResetFits(s: State, t: State)
    requires SizesOk(t) && WritersOk(s) && !s.lock.Held? && |t.ring| == |s.ring|
    requires t.writers == s.writers && t.lock == Free && t.readPos == 0 && Fifo(t) && Pending(t) == []
    ensures WritersOk(t) && Neat(t) && CopyFits(t)
  {
    LockFreed(s, t);
    assert Lengths(Pending(t)) == [];
    TidyNone(|t.ring|, 0);
  }

  lemma RefusedClaim(s: State, t: State)
    requires ExactInv(s) && !s.lock.Held? && t == s.(lock := Free)
    ensures ExactInv(t) && Pending(t) == Pending(s)
  {
    LockFreed(s, t);
    assert t.Front() == s.Front() && Pending(t) == Pending(s);
  }

  lemma {:induction false} ExactExit(s: State, p: nat, t: State)
    requires ExactInv(s) && Next(s, Exits(p)) == Some(t)
    ensures ExactInv(t) && Pending(t) == Pending(s)
  {
    assert forall w :: t.Pc(w) == s.Pc(w);
    assert t.Front() == s.Front() && Pending(t) == Pending(s);
    SameFits(s, t);
  }

  /** Every step from an overfull ring too keeps the queue whole and refines one step of it. */
  lemma {:induction false} ExactStep(s: State, a: Action, t: State)
    requires ExactInv(s) && OrderlyStep(s, a) && CleanCopy(s, a) && Next(s, a) == Some(t)
    ensures ExactInv(t) && Pending(t) == QueueAfter(s, a, Pending(s))
    ensures !a.Abort? && (a.Consume? ==> Pending(s) != [])
  {
    if IsRead(a) {
      ExactRead(s, a, t);
      QueueAfterRead(s, a, Pending(s));
    } else if a.Claim? {
      ExactClaim(s, a.h, a.p, t);
    } else if a.Exits? {
      ExactExit(s, a.p, t);
    } else {
      ExactWrite(s, a, t);
      QueueAfterWrite(s, a, Pending(s));
    }
  }

  /** Over every interleaving in which claims are orderly and each copy leaves the queue it
      finds clean, overfull or not, the deliveries are a prefix of the publications, and the
      queue never reaches beyond three laps of the ring. */
  lemma {:induction false} FifoIfClean(s: State, acts: seq<Action>)
    requires ExactInv(s) && Orderly(s, acts) && CleanCopies(s, acts) && Exec(s, acts).Some?
    ensures var t := Exec(s, acts).value;
            ExactInv(t) && Fifo(t) && t.writePos <= t.readPos + 3 * |t.ring|
    decreases |acts|
  {
    if acts == [] {
      EndIsAt(s.readPos, Pending(s));
      ThreeLaps(|s.ring|, s.readPos, Lengths(Pending(s)));
    } else {
      ExactStep(s, acts[0], Next(s, acts[0]).value);
      FifoIfClean(Next(s, acts[0]).value, acts[1..]);
    }
  }

  lemma {:induction false} CreatedExact(ring: seq<byte>, creator: nat, max: nat)
    requires 1024 <= |ring| < U32 && |ring| % ENTRY_ALIGN == 0 && max <= |ring|
    ensures ExactInv(Created(ring, creator, max))
  {
    CreatedQueue(ring, creator, max);
    CreatedWriters(ring, creator, max);
    assert Lengths(Pending(Created(ring, creator, max))) == [];
    TidyNone(|ring|, 0);
  }

  /** The same from creation on, byte for byte. */
  lemma {:induction false} ExactFromCreation(ring: seq<byte>, creator: nat, max: nat, acts: seq<Action>)
    requires 1024 <= |ring| < U32 && |ring| % ENTRY_ALIGN == 0 && max <= |ring|
    requires Orderly(Created(ring, creator, max), acts) && CleanCopies(Created(ring, creator, max), acts)
    requires Exec(Created(ring, creator, max), acts).Some?
    ensures var t := Exec(Created(ring, creator, max), acts).value;
            var delivered := t.Front().delivered;
            && |delivered| <= |t.published|
            && (forall i | 0 <= i < |delivered| :: delivered[i] == Seen(t.published[i], t.max))
            && Unread(t.ring, t.readPos, t.writePos) == Some(t.published[|delivered|..])
  {
    CreatedExact(ring, creator, max);
    FifoIfClean(Created(ring, creator, max), acts);
    FrontOfQueue(Exec(Created(ring, creator, max), acts).value);
  }
}
