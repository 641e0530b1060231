/** The bucket as a protocol: any number of writers, reader handles and processes, and
    takeovers, interleaved one shared-memory access at a time.

    Writers copy one byte per step and publish with one store, and may die before any
    step.  A reader handle snapshots the write position, copies one byte per step, and
    consumes with one store to the shared read position; its cursor is its own.  A claim
    adds a handle and takes nothing away from the others: a displaced reader reads on.
    The robust lock is Free, Held, or Orphaned by a holder that died; whoever takes an
    Orphaned lock makes it consistent again. */
module BucketProtocol {
  import opened Bytes
  import opened Wrappers
  import opened Ring

  datatype Writer =
    | Idle
    | Wanting(msg: Message)
    | Waiting(msg: Message, failed: bool)
    | Copying(msg: Message, done: nat)
    | Leaving
    | Dead

  datatype ReaderPc = Resting | Reading(snap: nat, got: seq<byte>)

  /** What Read reports: the length found in the header, and the bytes in the buffer. */
  datatype Delivery = Delivery(len: nat, data: seq<byte>)

  /** One handle, of process pid.  delivered records what its reads returned; the first
      of them should be publication number start. */
  datatype Reader = Reader(pid: nat, cursor: nat, start: nat, delivered: seq<Delivery>, pc: ReaderPc)

  datatype Lock = Free | Held(holder: nat) | Orphaned

  /** published records what writers made visible since the last reset of the ring, front
      the handle that was created with the ring or took it over last. */
  datatype State = State(
    ring: seq<byte>,
    writePos: nat,
    readPos: nat,
    ownerPid: nat,
    lock: Lock,
    writers: map<nat, Writer>,
    readers: map<nat, Reader>,
    gone: set<nat>,
    max: nat,
    front: nat,
    published: seq<Message>)
  {
    function Pc(w: nat): Writer {
      if w in writers then writers[w] else Idle
    }

    function Set(w: nat, pc: Writer): State {
      this.(writers := writers[w := pc])
    }

    function Handle(h: nat): Reader {
      if h in readers then readers[h] else Reader(0, 0, 0, [], Resting)
    }

    function Put(h: nat, r: Reader): State {
      this.(readers := readers[h := r])
    }

    function Front(): Reader {
      Handle(front)
    }

    /** The handle exists and its process does. */
    predicate Active(h: nat) {
      h in readers && readers[h].pid !in gone
    }
  }

  datatype Action =
    | Call(w: nat, msg: Message)
    | Acquire(w: nat)
    | Check(w: nat)
    | Expire(w: nat)
    | Copy(w: nat)
    | Publish(w: nat)
    | Release(w: nat)
    | Die(w: nat)
    | Look(h: nat)
    | Peek(h: nat)
    | Abort(h: nat)
    | Consume(h: nat)
    | Exits(p: nat)
    | Claim(h: nat, p: nat)

  /** A segment just created by process creator, whose handle 0 reads it. */
  function Created(ring: seq<byte>, creator: nat, max: nat): State {
    State(ring, 0, 0, 0, Free, map[], map[0 := Reader(creator, 0, 0, [], Resting)], {}, max, 0, [])
  }

  predicate SizesOk(s: State) {
    1024 <= |s.ring| < U32 && |s.ring| % ENTRY_ALIGN == 0 && s.max <= |s.ring|
  }

  // ---- the steps ----

  function Next(s: State, a: Action): Option<State>
    requires |s.ring| > 0
  {
    match a
    case Look(_) => Reads(s, a)
    case Peek(_) => Reads(s, a)
    case Abort(_) => Reads(s, a)
    case Consume(_) => Reads(s, a)
    case Exits(p) => if p in s.gone then None else Some(s.(gone := s.gone + {p}))
    case Claim(h, p) => Claims(s, h, p)
    case _ => Writes(s, a)
  }

  predicate IsRead(a: Action) {
    a.Look? || a.Peek? || a.Abort? || a.Consume?
  }

  predicate IsWrite(a: Action) {
    a.Call? || a.Acquire? || a.Check? || a.Expire? || a.Copy? || a.Publish? || a.Release? || a.Die?
  }

  function Writes(s: State, a: Action): Option<State>
    requires |s.ring| > 0
    requires IsWrite(a)
  {
    var pc := s.Pc(a.w);
    match a
    case Call(w, msg) =>
      if !pc.Idle? then None
      else if Entry(|msg|) > |s.ring| then Some(s)
      else Some(s.Set(w, Wanting(msg)))
    case Acquire(w) =>
      if !pc.Wanting? || s.lock.Held? then None
      else Some(s.Set(w, Waiting(pc.msg, false)).(lock := Held(w)))
    case Check(w) =>
      if !pc.Waiting? then None
      else if DrainGuard(|s.ring|, s.writePos, s.readPos) then Some(s.Set(w, Copying(pc.msg, 0)))
      else Some(s.Set(w, Waiting(pc.msg, true)))
    case Expire(w) =>
      if !pc.Waiting? || !pc.failed then None
      else Some(s.Set(w, Idle).(lock := Free))
    case Copy(w) =>
      if !pc.Copying? || pc.done >= |Record(pc.msg)| then None
      else
        var cell := (s.writePos + pc.done) % |s.ring|;
        Some(s.Set(w, Copying(pc.msg, pc.done + 1)).(ring := s.ring[cell := Record(pc.msg)[pc.done]]))
    case Publish(w) =>
      if !pc.Copying? || pc.done < |Record(pc.msg)| then None
      else Some(s.Set(w, Leaving).(writePos := s.writePos + Entry(|pc.msg|), published := s.published + [pc.msg]))
    case Release(w) =>
      if !pc.Leaving? then None else Some(s.Set(w, Idle).(lock := Free))
    case Die(w) =>
      if pc.Dead? then None
      else Some(s.Set(w, Dead).(lock := if s.lock == Held(w) then Orphaned else s.lock))
  }

  function Reads(s: State, a: Action): Option<State>
    requires |s.ring| > 0 && IsRead(a)
  {
    var r := s.Handle(a.h);
    if !s.Active(a.h) then None
    else match r.pc
      case Resting =>
        if a.Look? && Sub64(s.writePos, r.cursor) >= HEADER
        then Some(s.Put(a.h, r.(pc := Reading(s.writePos, [])))) else None
      case Reading(snap, got) =>
        var byteHere := s.ring[(r.cursor + |got|) % |s.ring|];
        var onward := s.Put(a.h, r.(pc := Reading(snap, got + [byteHere])));
        if |got| < HEADER then (if a.Peek? then Some(onward) else None)
        else
          var len := Val(got[..HEADER]);
          var n := if len > s.max then s.max else len;
          if Sub64(snap, r.cursor) < Entry(len) then
            if a.Abort? then Some(s.Put(a.h, r.(pc := Resting))) else None
          else if |got| < HEADER + n then
            if a.Peek? then Some(onward) else None
          else if a.Consume? then
            var c := r.cursor + Entry(len);
            var after := r.(cursor := c, pc := Resting, delivered := r.delivered + [Delivery(len, got[HEADER..])]);
            Some(s.Put(a.h, after).(readPos := c))
          else None
  }

  /** Process p opens the segment with a new handle h and claims it.  The handle is kept
      when p resets the ring or owns it already; otherwise it is dropped again. */
  function Claims(s: State, h: nat, p: nat): Option<State> {
    if s.lock.Held? || p == 0 || p in s.gone || h in s.readers then None
    else if Resets(s, p) then
      Some(s.Put(h, Reader(p, 0, 0, [], Resting)).(writePos := 0, readPos := 0, ownerPid := p, lock := Free,
                                                   front := h, published := []))
    else if Takes(s, p) then
      Some(s.Put(h, Reader(p, s.readPos, s.Front().start + |s.Front().delivered|, [], Resting)).(lock := Free,
                                                   front := h))
    else Some(s.(lock := Free))
  }

  /** ClaimOwnership resets the ring: it has no owner yet, or its owner is gone. */
  predicate Resets(s: State, p: nat) {
    s.ownerPid == 0 || (s.ownerPid != p && s.ownerPid in s.gone)
  }

  /** ClaimOwnership lets p read. */
  predicate Takes(s: State, p: nat) {
    Resets(s, p) || s.ownerPid == p
  }

  function Exec(s: State, acts: seq<Action>): (t: Option<State>)
    requires |s.ring| > 0
    ensures t.Some? ==> |t.value.ring| == |s.ring|
    decreases |acts|
  {
    if acts == [] then Some(s)
    else match Next(s, acts[0])
      case None => None
      case Some(t) => Exec(t, acts[1..])
  }

  // ---- side conditions on runs ----

  /** A claim succeeds only when nobody reads the ring any more. */
  predicate OrderlyStep(s: State, a: Action) {
    a.Claim? && Takes(s, a.p) ==> forall h | h in s.readers :: !s.Active(h)
  }

  /** A copy starts only with room for the bytes of its record. */
  predicate RoomyStep(s: State, a: Action) {
    a.Check? && s.Pc(a.w).Waiting? && DrainGuard(|s.ring|, s.writePos, s.readPos)
    ==> Room(|s.ring|, s.writePos, s.readPos, |s.Pc(a.w).msg|)
  }

  predicate Orderly(s: State, acts: seq<Action>)
    requires |s.ring| > 0
    decreases |acts|
  {
    acts != [] ==>
      && OrderlyStep(s, acts[0])
      && (Next(s, acts[0]).Some? ==> Orderly(Next(s, acts[0]).value, acts[1..]))
  }

  predicate Roomy(s: State, acts: seq<Action>)
    requires |s.ring| > 0
    decreases |acts|
  {
    acts != [] ==>
      && RoomyStep(s, acts[0])
      && (Next(s, acts[0]).Some? ==> Roomy(Next(s, acts[0]).value, acts[1..]))
  }

  // ---- the invariant ----

  function Seen(m: Message, max: nat): Delivery {
    Delivery(|m|, if |m| > max then m[..max] else m)
  }

  /** What the front handle has read is what was published from its start on, in order. */
  ghost predicate Fifo(s: State) {
    var r := s.Front();
    && r.start + |r.delivered| <= |s.published|
    && forall i | 0 <= i < |r.delivered| :: r.delivered[i] == Seen(s.published[r.start + i], s.max)
  }

  ghost function Pending(s: State): seq<Message>
    requires Fifo(s)
  {
    s.published[s.Front().start + |s.Front().delivered|..]
  }

  ghost predicate Inside(pc: Writer) {
    pc.Waiting? || pc.Copying? || pc.Leaving?
  }

  ghost predicate WritersOk(s: State) {
    && (forall w | Inside(s.Pc(w)) :: s.lock == Held(w))
    && (s.lock.Held? ==> Inside(s.Pc(s.lock.holder)))
    && (forall w | s.Pc(w).Wanting? || s.Pc(w).Waiting? || s.Pc(w).Copying? ::
          Entry(|s.Pc(w).msg|) <= |s.ring|)
  }

  ghost predicate CopyOk(s: State)
    requires |s.ring| > 0
  {
    s.lock.Held? && s.Pc(s.lock.holder).Copying? ==>
      var pc := s.Pc(s.lock.holder);
      && pc.done <= |Record(pc.msg)|
      && Room(|s.ring|, s.writePos, s.readPos, |pc.msg|)
      && Fetch(s.ring, s.writePos, pc.done) == Record(pc.msg)[..pc.done]
  }

  ghost predicate QueueOk(s: State)
    requires |s.ring| > 0
  {
    && Fifo(s)
    && s.Front().cursor == s.readPos
    && Holds(s.ring, s.readPos, Pending(s))
    && End(s.readPos, Pending(s)) == s.writePos
    && s.writePos < s.readPos + U64
  }

  ghost predicate ReadOk(s: State)
    requires |s.ring| > 0 && QueueOk(s)
  {
    s.Front().pc.Reading? ==>
      var (snap, got) := (s.Front().pc.snap, s.Front().pc.got);
      && Pending(s) != []
      && var m := Pending(s)[0];
         && s.readPos + Entry(|m|) <= snap <= s.writePos
         && |got| <= HEADER + (if |m| > s.max then s.max else |m|)
         && got == Record(m)[..|got|]
  }

  /** Only the front handle can still be active; it is the owner's, once there is one. */
  ghost predicate ReadersOk(s: State) {
    && s.front in s.readers && s.Front().start == 0
    && (forall h | h in s.readers && h != s.front :: s.readers[h].pid in s.gone)
    && (s.ownerPid != 0 ==> s.Front().pid == s.ownerPid)
  }

  /** What room at every copy leaves: a ring overfull by one block at most. */
  predicate Bounded(s: State) {
    s.writePos <= s.readPos + |s.ring| + ENTRY_ALIGN
  }

  ghost predicate Inv(s: State) {
    SizesOk(s) && ReadersOk(s) && WritersOk(s) && CopyOk(s) && QueueOk(s) && ReadOk(s) && Bounded(s)
  }

  // ---- every step keeps it, and refines one step of a queue ----

  lemma {:induction false} QueueInRing(s: State)
    requires |s.ring| > 0 && QueueOk(s)
    ensures Unread(s.ring, s.readPos, s.writePos) == Some(Pending(s))
  {
    UnreadIff(s.ring, s.readPos, s.writePos, Pending(s));
  }

  /** Once four bytes are read, they are the length header of the oldest message. */
  lemma {:induction false} HeadHeader(s: State)
    requires |s.ring| > 0 && QueueOk(s) && ReadOk(s) && s.Front().pc.Reading?
    ensures |s.Front().pc.got| >= HEADER ==> Val(s.Front().pc.got[..HEADER]) == |Pending(s)[0]|
  {
    var got, m := s.Front().pc.got, Pending(s)[0];
    if |got| >= HEADER {
      RecordDecodes(m);
      assert got[..HEADER] == Record(m)[..HEADER];
    }
  }

  /** Reading on without consuming leaves the queue as it is. */
  lemma FifoRead(s: State, t: State)
    requires Fifo(s) && t.max == s.max && t.published == s.published
    requires t.Front() == s.Front().(pc := t.Front().pc)
    ensures Fifo(t) && Pending(t) == Pending(s)
  {
  }

  lemma QueueRead(s: State, t: State)
    requires |s.ring| > 0 && QueueOk(s) && t.ring == s.ring && t.max == s.max
    requires t.writePos == s.writePos && t.readPos == s.readPos && t.published == s.published
    requires t.Front() == s.Front().(pc := t.Front().pc)
    ensures QueueOk(t) && Pending(t) == Pending(s)
  {
    FifoRead(s, t);
  }

  lemma {:induction false} LookKeeps(s: State, t: State)
    requires SizesOk(s) && s.Front().start == 0 && QueueOk(s) && Reads(s, Look(s.front)) == Some(t)
    ensures QueueOk(t) && ReadOk(t) && Pending(t) == Pending(s)
  {
    QueueRead(s, t);
  }

  /** What Peek does, and when it can. */
  lemma PeekFrame(s: State, h: nat, t: State)
    requires |s.ring| > 0 && Reads(s, Peek(h)) == Some(t)
    ensures var r := s.Handle(h);
            && r.pc.Reading?
            && var got := r.pc.got;
               && t == s.Put(h, r.(pc := Reading(r.pc.snap, got + [s.ring[(r.cursor + |got|) % |s.ring|]])))
               && (|got| >= HEADER ==> |got| < HEADER + Val(got[..HEADER]) && |got| < HEADER + s.max)
  {
  }

  lemma {:induction false} PeekKeeps(s: State, t: State)
    requires SizesOk(s) && QueueOk(s) && ReadOk(s) && Reads(s, Peek(s.front)) == Some(t)
    ensures QueueOk(t) && ReadOk(t) && Pending(t) == Pending(s)
  {
    PeekFrame(s, s.front, t);
    HeadHeader(s);
    QueueRead(s, t);
    var got, m := s.Front().pc.got, Pending(s)[0];
    OneByteMore(s.ring, s.readPos, m, got);
  }

  lemma OneByteMore(ring: seq<byte>, pos: nat, m: Message, got: seq<byte>)
    requires |ring| > 0 && Fetch(ring, pos, |Record(m)|) == Record(m)
    requires |got| < |Record(m)| && got == Record(m)[..|got|]
    ensures got + [ring[(pos + |got|) % |ring|]] == Record(m)[..|got| + 1]
  {
    assert Fetch(ring, pos, |Record(m)|)[|got|] == Record(m)[|got|];
  }

  lemma {:induction false} AbortImpossible(s: State)
    requires SizesOk(s) && QueueOk(s) && ReadOk(s)
    ensures Reads(s, Abort(s.front)) == None
  {
    if s.Front().pc.Reading? {
      HeadHeader(s);
    }
  }

  /** What Consume does, and when it can. */
  lemma ConsumeFrame(s: State, h: nat, t: State)
    requires |s.ring| > 0 && Reads(s, Consume(h)) == Some(t)
    ensures var r := s.Handle(h);
            && r.pc.Reading? && |r.pc.got| >= HEADER
            && var got := r.pc.got;
               var len := Val(got[..HEADER]);
               var c := r.cursor + Entry(len);
               && |got| >= HEADER + (if len > s.max then s.max else len)
               && t == s.Put(h, r.(cursor := c, pc := Resting,
                                   delivered := r.delivered + [Delivery(len, got[HEADER..])])).(readPos := c)
  {
  }

  lemma {:induction false} ConsumeKeeps(s: State, t: State)
    requires SizesOk(s) && QueueOk(s) && ReadOk(s) && Reads(s, Consume(s.front)) == Some(t)
    ensures QueueOk(t) && Pending(s) != [] && Pending(t) == Pending(s)[1..]
    ensures t.readPos == s.readPos + Entry(|Pending(s)[0]|)
  {
    ConsumeFrame(s, s.front, t);
    HeadHeader(s);
    var got, m := s.Front().pc.got, Pending(s)[0];
    RecordDecodes(m);
    assert got[HEADER..] == Seen(m, s.max).data;
    QueueConsumed(s, t);
  }

  /** One right delivery more. */
  lemma FifoOneMore(s: State, t: State)
    requires Fifo(s) && Pending(s) != [] && t.published == s.published && t.max == s.max
    requires t.Front().start == s.Front().start
    requires t.Front().delivered == s.Front().delivered + [Seen(Pending(s)[0], s.max)]
    ensures Fifo(t) && Pending(t) == Pending(s)[1..]
  {
    var r, n := t.Front(), |s.Front().delivered|;
    assert Pending(s)[0] == s.published[r.start + n];
    forall i | 0 <= i < n + 1 ensures r.delivered[i] == Seen(t.published[r.start + i], t.max) {
      if i < n {
        assert r.delivered[i] == s.Front().delivered[i];
      }
    }
    DropOneMore(s.published, r.start + n);
  }

  lemma DropOneMore(ms: seq<Message>, n: nat)
    requires n < |ms|
    ensures ms[n..][1..] == ms[n + 1..]
  {
  }

  /** The queue without its head. */
  lemma QueueConsumed(s: State, t: State)
    requires |s.ring| > 0 && QueueOk(s) && Pending(s) != [] && t.ring == s.ring && t.max == s.max
    requires t.writePos == s.writePos && t.published == s.published
    requires t.Front().start == s.Front().start && t.Front().cursor == t.readPos
    requires t.readPos == s.readPos + Entry(|Pending(s)[0]|)
    requires t.Front().delivered == s.Front().delivered + [Seen(Pending(s)[0], s.max)]
    ensures QueueOk(t) && Pending(t) == Pending(s)[1..]
  {
    FifoOneMore(s, t);
    assert Holds(t.ring, t.readPos, Pending(s)[1..]);
    assert End(t.readPos, Pending(s)[1..]) == s.writePos;
  }

  /** A step of a reader touches its own handle and at most the shared read position. */
  lemma ReadFrame(s: State, a: Action, t: State)
    requires |s.ring| > 0 && IsRead(a) && Reads(s, a) == Some(t)
    ensures a.h in s.readers && t.readers == s.readers[a.h := t.Handle(a.h)]
    ensures t.ring == s.ring && t.writePos == s.writePos && t.published == s.published
    ensures t.writers == s.writers && t.lock == s.lock
    ensures t.readPos == s.readPos || t.readPos == t.Handle(a.h).cursor
    ensures !a.Consume? ==> t.Handle(a.h).cursor == s.Handle(a.h).cursor
  {
  }

  lemma SumAligned(x: nat, y: nat)
    requires x % ENTRY_ALIGN == 0 && y % ENTRY_ALIGN == 0
    ensures (x + y) % ENTRY_ALIGN == 0
  {
    WholeBlocks(x + y, x / ENTRY_ALIGN + y / ENTRY_ALIGN);
  }

  lemma WholeBlocks(x: nat, n: nat)
    requires x == ENTRY_ALIGN * n
    ensures x % ENTRY_ALIGN == 0
  {
  }

  lemma ReadAligned(s: State, a: Action, t: State)
    requires |s.ring| > 0 && IsRead(a) && Reads(s, a) == Some(t) && s.Handle(a.h).cursor % ENTRY_ALIGN == 0
    ensures t.Handle(a.h).cursor % ENTRY_ALIGN == 0
  {
    ReadFrame(s, a, t);
    if a.Consume? {
      ConsumeFrame(s, a.h, t);
      SumAligned(s.Handle(a.h).cursor, Entry(Val(s.Handle(a.h).pc.got[..HEADER])));
    }
  }

  /** Only the front handle can step, and it touches neither the ring nor the writers. */
  lemma ReadSides(s: State, a: Action, t: State)
    requires SizesOk(s) && ReadersOk(s) && WritersOk(s) && IsRead(a) && Reads(s, a) == Some(t)
    ensures a.h == s.front && SizesOk(t) && ReadersOk(t) && WritersOk(t)
    ensures t.ring == s.ring && t.writePos == s.writePos && t.lock == s.lock && t.writers == s.writers
  {
    assert a.h == s.front;
    ReadFrame(s, a, t);
    assert forall w :: t.Pc(w) == s.Pc(w);
  }

  lemma {:induction false} ReaderQueue(s: State, a: Action, t: State)
    requires SizesOk(s) && QueueOk(s) && ReadOk(s) && s.Front().start == 0
    requires IsRead(a) && a.h == s.front && Reads(s, a) == Some(t)
    ensures QueueOk(t) && ReadOk(t) && !a.Abort? && (a.Consume? ==> Pending(s) != [])
    ensures Pending(t) == if a.Consume? then Pending(s)[1..] else Pending(s)
    ensures t.readPos == if a.Consume? then s.readPos + Entry(|Pending(s)[0]|) else s.readPos
  {
    match a
    case Look(_) => LookKeeps(s, t);
    case Peek(_) => PeekKeeps(s, t);
    case Consume(_) => ConsumeKeeps(s, t);
    case Abort(_) => AbortImpossible(s);
  }

  lemma {:induction false} ReaderKeeps(s: State, a: Action, t: State)
    requires Inv(s) && IsRead(a) && Reads(s, a) == Some(t)
    ensures Inv(t) && a.h == s.front && !a.Abort?
    ensures a.Consume? ==> Pending(s) != []
    ensures Pending(t) == if a.Consume? then Pending(s)[1..] else Pending(s)
  {
    ReadSides(s, a, t);
    ReaderQueue(s, a, t);
    MovedOn(s, t);
  }

  /** A later read position leaves a copy its room. */
  lemma MovedOn(s: State, t: State)
    requires |s.ring| > 0 && CopyOk(s) && Bounded(s) && s.readPos <= t.readPos
    requires t.ring == s.ring && t.writePos == s.writePos && t.lock == s.lock && t.writers == s.writers
    ensures CopyOk(t) && Bounded(t)
  {
    assert forall w :: t.Pc(w) == s.Pc(w);
  }

  lemma {:induction false} ExitKeeps(s: State, p: nat, t: State)
    requires Inv(s) && Next(s, Exits(p)) == Some(t)
    ensures Inv(t) && Pending(t) == Pending(s)
  {
    assert forall w :: t.Pc(w) == s.Pc(w);
    assert Pending(t) == Pending(s);
  }

  // ---- what a step of a writer touches ----

  /** No handle has changed, nor the read position. */
  predicate SameHandles(s: State, t: State) {
    && t.readers == s.readers && t.front == s.front && t.gone == s.gone && t.max == s.max
    && t.ownerPid == s.ownerPid && t.readPos == s.readPos && |t.ring| == |s.ring|
  }

  lemma WriteFrame(s: State, a: Action, t: State)
    requires |s.ring| > 0 && IsWrite(a) && Writes(s, a) == Some(t)
    ensures SameHandles(s, t) && s.writePos <= t.writePos
    ensures !a.Copy? ==> t.ring == s.ring
    ensures !a.Publish? ==> t.writePos == s.writePos && t.published == s.published
    ensures forall v | v != a.w :: t.Pc(v) == s.Pc(v)
  {
  }

  /** Who is not inside touches neither ring nor write position. */
  lemma OutsideFrame(s: State, a: Action, t: State)
    requires |s.ring| > 0 && IsWrite(a) && Writes(s, a) == Some(t) && !Inside(s.Pc(a.w))
    ensures t.ring == s.ring && t.writePos == s.writePos && t.published == s.published
  {
  }

  /** A writer is inside exactly while it holds the lock, and only its own lock moves. */
  lemma LockMoves(s: State, a: Action, t: State)
    requires |s.ring| > 0 && IsWrite(a) && Writes(s, a) == Some(t)
    requires Inside(s.Pc(a.w)) <==> s.lock == Held(a.w)
    ensures Inside(t.Pc(a.w)) <==> t.lock == Held(a.w)
    ensures || t.lock == s.lock || (!s.lock.Held? && t.lock == Held(a.w))
            || (s.lock == Held(a.w) && !t.lock.Held?)
  {
  }

  predicate FitsRing(pc: Writer, cap: nat) {
    pc.Wanting? || pc.Waiting? || pc.Copying? ==> Entry(|pc.msg|) <= cap
  }

  lemma SizeStays(s: State, a: Action, t: State)
    requires |s.ring| > 0 && IsWrite(a) && Writes(s, a) == Some(t) && FitsRing(s.Pc(a.w), |s.ring|)
    ensures FitsRing(t.Pc(a.w), |s.ring|)
  {
  }

  /** Who holds the lock and who is inside, after any step of a writer. */
  lemma {:induction false} WritersKeep(s: State, a: Action, t: State)
    requires |s.ring| > 0 && WritersOk(s)
    requires IsWrite(a)
    requires Writes(s, a) == Some(t)
    ensures WritersOk(t)
  {
    WriteFrame(s, a, t);
    LockMoves(s, a, t);
    SizeStays(s, a, t);
    OneMoved(s, a.w, t);
  }

  lemma OneMoved(s: State, w: nat, t: State)
    requires WritersOk(s) && |t.ring| == |s.ring| && FitsRing(t.Pc(w), |s.ring|)
    requires forall v | v != w :: t.Pc(v) == s.Pc(v)
    requires Inside(t.Pc(w)) <==> t.lock == Held(w)
    requires || t.lock == s.lock || (!s.lock.Held? && t.lock == Held(w))
             || (s.lock == Held(w) && !t.lock.Held?)
    ensures WritersOk(t)
  {
  }

  predicate IsLockStep(a: Action) {
    a.Call? || a.Acquire? || a.Check? || a.Expire? || a.Release? || a.Die?
  }

  /** After such a step a copy is going on only if it was, or if a test has just passed. */
  lemma LockStepFrame(s: State, a: Action, t: State)
    requires |s.ring| > 0 && IsLockStep(a) && Writes(s, a) == Some(t)
    requires t.lock.Held? && t.Pc(t.lock.holder).Copying?
    ensures || (t.lock == s.lock && t.Pc(t.lock.holder) == s.Pc(t.lock.holder))
            || (a.Check? && t.lock.holder == a.w && s.Pc(a.w).Waiting? && t.Pc(a.w) == Copying(s.Pc(a.w).msg, 0)
                && DrainGuard(|s.ring|, s.writePos, s.readPos))
  {
  }

  /** What the invariant says of the queue does not depend on the writers. */
  lemma QueueSame(s: State, t: State)
    requires |s.ring| > 0 && QueueOk(s) && SameHandles(s, t) && t.ring == s.ring
    requires t.writePos == s.writePos && t.published == s.published
    ensures QueueOk(t) && Pending(t) == Pending(s)
  {
    assert t.Front() == s.Front();
  }

  /** A writer's step touches no handle and no read position. */
  lemma WriteSides(s: State, a: Action, t: State)
    requires SizesOk(s) && ReadersOk(s) && IsWrite(a) && Writes(s, a) == Some(t)
    ensures SizesOk(t) && ReadersOk(t) && t.Front() == s.Front()
    ensures t.readPos == s.readPos && t.max == s.max && s.writePos <= t.writePos
  {
    WriteFrame(s, a, t);
  }

  /** A writer's step does not disturb the entry being read. */
  lemma {:induction false} ReadKeeps(s: State, t: State)
    requires |s.ring| > 0 && QueueOk(s) && ReadOk(s) && |t.ring| > 0 && QueueOk(t)
    requires t.Front() == s.Front() && t.readPos == s.readPos && t.max == s.max
    requires s.writePos <= t.writePos && Pending(s) <= Pending(t)
    ensures ReadOk(t)
  {
  }

  /** One byte more is in the ring. */
  lemma CopyFrame(s: State, w: nat, t: State)
    requires |s.ring| > 0 && WritersOk(s) && Writes(s, Copy(w)) == Some(t)
    ensures s.lock == t.lock == Held(w) && s.Pc(w).Copying? && SameHandles(s, t)
    ensures t.writePos == s.writePos && t.published == s.published
    ensures var pc := s.Pc(w);
            && pc.done < |Record(pc.msg)| && t.Pc(w) == Copying(pc.msg, pc.done + 1)
            && t.ring == Deposit(s.ring, s.writePos + pc.done, [Record(pc.msg)[pc.done]])
  {
    var pc := s.Pc(w);
    assert s.lock == Held(w);
    CellIsDeposit(s.ring, s.writePos + pc.done, Record(pc.msg)[pc.done]);
  }

  lemma {:induction false} CopyKeeps(s: State, w: nat, t: State)
    requires Inv(s) && Writes(s, Copy(w)) == Some(t)
    ensures QueueOk(t) && CopyOk(t) && Bounded(t) && Pending(t) == Pending(s)
  {
    CopyFrame(s, w, t);
    var pc := s.Pc(w);
    assert t.Front() == s.Front() && Pending(t) == Pending(s);
    QueueElsewhere(s, s.writePos + pc.done, Record(pc.msg)[pc.done], t);
    RoomStays(s, w, t);
  }

  lemma RoomStays(s: State, w: nat, t: State)
    requires |s.ring| > 0 && CopyOk(s) && s.lock == t.lock == Held(w) && s.Pc(w).Copying?
    requires t.readPos == s.readPos && t.writePos == s.writePos
    requires var pc := s.Pc(w);
             && pc.done < |Record(pc.msg)| <= |s.ring| && t.Pc(w) == Copying(pc.msg, pc.done + 1)
             && t.ring == Deposit(s.ring, s.writePos + pc.done, [Record(pc.msg)[pc.done]])
    ensures CopyOk(t)
  {
    CopiedOneMore(s.ring, s.writePos, s.Pc(w).msg, s.Pc(w).done);
  }

  lemma {:induction false} QueueElsewhere(s: State, at: nat, b: byte, t: State)
    requires |s.ring| > 0 && QueueOk(s) && s.writePos <= at < s.readPos + |s.ring|
    requires t.ring == Deposit(s.ring, at, [b]) && Fifo(t) && Pending(t) == Pending(s)
    requires t.readPos == s.readPos == t.Front().cursor && t.writePos == s.writePos
    ensures QueueOk(t)
  {
    HoldsElsewhere(s.ring, at, [b], s.readPos, Pending(s));
  }

  lemma {:induction false} CopiedOneMore(ring: seq<byte>, w: nat, m: Message, done: nat)
    requires done < |Record(m)| <= |ring|
    requires Fetch(ring, w, done) == Record(m)[..done]
    ensures Fetch(Deposit(ring, w + done, [Record(m)[done]]), w, done + 1) == Record(m)[..done + 1]
  {
    var b := Record(m)[done];
    var next := Deposit(ring, w + done, [b]);
    FetchElsewhere(ring, w + done, [b], w, done);
    FetchDeposit(ring, w + done, [b]);
    assert Fetch(next, w, done + 1) == Fetch(next, w, done) + Fetch(next, w + done, 1);
    assert Record(m)[..done + 1] == Record(m)[..done] + [b];
  }

  lemma PublishFrame(s: State, w: nat, t: State)
    requires |s.ring| > 0 && WritersOk(s) && Writes(s, Publish(w)) == Some(t)
    ensures s.lock == t.lock == Held(w) && s.Pc(w).Copying? && t.Pc(w).Leaving? && SameHandles(s, t)
    ensures var m := s.Pc(w).msg;
            && s.Pc(w).done >= |Record(m)| && t.ring == s.ring
            && t.writePos == s.writePos + Entry(|m|) && t.published == s.published + [m]
  {
    assert s.lock == Held(w);
  }

  /** The queue with a message that is complete in the ring. */
  lemma {:induction false} PublishedQueue(s: State, m: Message, t: State)
    requires |s.ring| > 0 && QueueOk(s) && SameHandles(s, t) && t.ring == s.ring
    requires t.writePos == s.writePos + Entry(|m|) && t.published == s.published + [m]
    requires Fetch(s.ring, s.writePos, |Record(m)|) == Record(m)
    ensures Fifo(t) && Pending(t) == Pending(s) + [m]
    ensures t.Front().cursor == t.readPos && Holds(t.ring, t.readPos, Pending(t))
    ensures End(t.readPos, Pending(t)) == t.writePos
  {
    assert t.Front() == s.Front() && Pending(t) == Pending(s) + [m];
    HoldsAppend(s.ring, s.readPos, Pending(s), m);
  }

  lemma {:induction false} PublishKeeps(s: State, w: nat, t: State)
    requires Inv(s) && Writes(s, Publish(w)) == Some(t)
    ensures QueueOk(t) && CopyOk(t) && Bounded(t)
    ensures s.Pc(w).Copying? && Pending(t) == Pending(s) + [s.Pc(w).msg]
  {
    PublishFrame(s, w, t);
    var m := s.Pc(w).msg;
    assert Record(m)[..|Record(m)|] == Record(m);
    PublishedQueue(s, m, t);
  }

  lemma {:induction false} LockStepKeeps(s: State, a: Action, t: State)
    requires Inv(s) && RoomyStep(s, a) && IsLockStep(a) && Writes(s, a) == Some(t)
    ensures QueueOk(t) && CopyOk(t) && Bounded(t) && Pending(t) == Pending(s)
  {
    WriteFrame(s, a, t);
    QueueSame(s, t);
    if t.lock.Held? && t.Pc(t.lock.holder).Copying? {
      LockStepFrame(s, a, t);
    }
  }

  lemma {:induction false} WriterKeeps(s: State, a: Action, t: State)
    requires Inv(s) && RoomyStep(s, a)
    requires IsWrite(a)
    requires Writes(s, a) == Some(t)
    ensures Inv(t) && (a.Publish? ==> s.Pc(a.w).Copying?)
    ensures Pending(t) == if a.Publish? then Pending(s) + [s.Pc(a.w).msg] else Pending(s)
  {
    WritersKeep(s, a, t);
    if a.Copy? {
      CopyKeeps(s, a.w, t);
    } else if a.Publish? {
      PublishKeeps(s, a.w, t);
    } else {
      LockStepKeeps(s, a, t);
    }
    WriteSides(s, a, t);
    ReadKeeps(s, t);
  }

  lemma LockFreed(s: State, t: State)
    requires WritersOk(s) && !s.lock.Held? && |s.ring| == |t.ring| > 0
    requires t.writers == s.writers && t.lock == Free
    ensures WritersOk(t) && CopyOk(t)
  {
    assert forall w :: t.Pc(w) == s.Pc(w);
  }

  /** An orderly claim that succeeds resets the ring. */
  lemma OrderlyTakesReset(s: State, h: nat, p: nat)
    requires ReadersOk(s) && OrderlyStep(s, Claim(h, p)) && p !in s.gone && Takes(s, p)
    ensures Resets(s, p) && !s.Active(s.front)
  {
  }

  lemma ResetFrame(s: State, h: nat, p: nat, t: State)
    requires Claims(s, h, p) == Some(t) && Resets(s, p)
    ensures t.ring == s.ring && t.max == s.max && t.writePos == t.readPos == 0 && t.published == []
    ensures t.front == h && h !in s.readers && t.readers == s.readers[h := Reader(p, 0, 0, [], Resting)]
    ensures t.ownerPid == p && t.gone == s.gone
  {
  }

  lemma ResetReaders(s: State, h: nat, p: nat, t: State)
    requires ReadersOk(s) && t.front == h && t.readers == s.readers[h := Reader(p, 0, 0, [], Resting)]
    requires t.ownerPid == p && t.gone == s.gone && !s.Active(s.front)
    ensures ReadersOk(t)
  {
    assert forall k | k in t.readers && k != h :: t.readers[k] == s.readers[k];
  }

  lemma ResetQueue(p: nat, t: State)
    requires SizesOk(t) && t.writePos == t.readPos == 0 && t.published == []
    requires t.front in t.readers && t.Front() == Reader(p, 0, 0, [], Resting)
    ensures QueueOk(t) && ReadOk(t) && Pending(t) == []
  {
    assert Pending(t) == [];
  }

  lemma ResetKeeps(s: State, h: nat, p: nat, t: State)
    requires SizesOk(s) && ReadersOk(s) && Claims(s, h, p) == Some(t) && Resets(s, p) && !s.Active(s.front)
    ensures SizesOk(t) && ReadersOk(t) && QueueOk(t) && ReadOk(t) && Pending(t) == []
  {
    ResetFrame(s, h, p, t);
    ResetReaders(s, h, p, t);
    ResetQueue(p, t);
  }

  lemma {:induction false} ClaimKeeps(s: State, h: nat, p: nat, t: State)
    requires Inv(s) && OrderlyStep(s, Claim(h, p)) && Claims(s, h, p) == Some(t)
    ensures Inv(t) && Pending(t) == if Resets(s, p) then [] else Pending(s)
  {
    LockFreed(s, t);
    if Takes(s, p) {
      OrderlyTakesReset(s, h, p);
      ResetKeeps(s, h, p, t);
    }
  }

  /** Claims and exits leave writers and ring alone, and the positions too unless they reset. */
  lemma OtherFrame(s: State, a: Action, t: State)
    requires |s.ring| > 0 && (a.Claim? || a.Exits?) && Next(s, a) == Some(t)
    ensures t.writers == s.writers && t.ring == s.ring
    ensures || (t.writePos == s.writePos && t.readPos == s.readPos && (t.lock == s.lock || t.lock == Free))
            || (a.Claim? && Resets(s, a.p) && t.writePos == t.readPos == 0 && t.lock == Free)
  {
  }

  /** The queue that one step should leave, from the queue before it. */
  ghost function QueueAfter(s: State, a: Action, queue: seq<Message>): seq<Message> {
    match a
    case Publish(w) => if s.Pc(w).Copying? then queue + [s.Pc(w).msg] else queue
    case Consume(_) => if queue != [] then queue[1..] else queue
    case Claim(_, p) => if Resets(s, p) then [] else queue
    case _ => queue
  }

  lemma QueueAfterRead(s: State, a: Action, queue: seq<Message>)
    requires IsRead(a) && (a.Consume? ==> queue != [])
    ensures QueueAfter(s, a, queue) == if a.Consume? then queue[1..] else queue
  {
  }

  lemma QueueAfterWrite(s: State, a: Action, queue: seq<Message>)
    requires IsWrite(a) && (a.Publish? ==> s.Pc(a.w).Copying?)
    ensures QueueAfter(s, a, queue) == if a.Publish? then queue + [s.Pc(a.w).msg] else queue
  {
  }

  lemma {:induction false} StepKeeps(s: State, a: Action, t: State)
    requires Inv(s) && OrderlyStep(s, a) && RoomyStep(s, a) && Next(s, a) == Some(t)
    ensures Inv(t) && Pending(t) == QueueAfter(s, a, Pending(s))
    ensures !a.Abort? && (a.Consume? ==> Pending(s) != [])
  {
    if IsRead(a) {
      ReaderKeeps(s, a, t);
      QueueAfterRead(s, a, Pending(s));
    } else if a.Claim? {
      ClaimKeeps(s, a.h, a.p, t);
    } else if a.Exits? {
      ExitKeeps(s, a.p, t);
    } else {
      WriterKeeps(s, a, t);
      QueueAfterWrite(s, a, Pending(s));
    }
  }

  /** One step, seen from the queue in the ring: publishing appends the writer's
      message, consuming removes the head, a takeover empties it, and nothing else,
      in particular no death of a writer at any point, changes what a reader would
      find there.  The reader never meets a torn entry. */
  lemma {:induction false} StepRefinesQueue(s: State, a: Action)
    requires Inv(s) && OrderlyStep(s, a) && RoomyStep(s, a) && Next(s, a).Some?
    ensures var t := Next(s, a).value;
            var before := Unread(s.ring, s.readPos, s.writePos);
            && Inv(t) && before.Some? && !a.Abort? && (a.Consume? ==> before.value != [])
            && Unread(t.ring, t.readPos, t.writePos) == Some(QueueAfter(s, a, before.value))
  {
    StepKeeps(s, a, Next(s, a).value);
    QueueInRing(s);
    QueueInRing(Next(s, a).value);
  }

  /** Over every interleaving in which copies start with room and takeovers wait for
      the old reader's death, the deliveries are exactly a prefix of the publications,
      in publish order, byte for byte; whoever dies, and whenever. */
  lemma {:induction false} FifoOverRuns(s: State, acts: seq<Action>)
    requires Inv(s) && Orderly(s, acts) && Roomy(s, acts) && Exec(s, acts).Some?
    ensures Inv(Exec(s, acts).value) && Fifo(Exec(s, acts).value)
    decreases |acts|
  {
    if acts != [] {
      StepKeeps(s, acts[0], Next(s, acts[0]).value);
      FifoOverRuns(Next(s, acts[0]).value, acts[1..]);
    }
  }

  lemma CreatedQueue(ring: seq<byte>, creator: nat, max: nat)
    requires |ring| > 0
    ensures var s := Created(ring, creator, max);
            && s.Front() == Reader(creator, 0, 0, [], Resting) && Fifo(s) && Pending(s) == []
            && QueueOk(s) && ReadOk(s) && ReadersOk(s)
  {
    var s := Created(ring, creator, max);
    assert s.Front() == Reader(creator, 0, 0, [], Resting);
    assert Pending(s) == [];
  }

  lemma CreatedWriters(ring: seq<byte>, creator: nat, max: nat)
    requires |ring| > 0
    ensures WritersOk(Created(ring, creator, max)) && CopyOk(Created(ring, creator, max))
  {
    assert forall w :: Created(ring, creator, max).Pc(w) == Idle;
  }

  lemma {:induction false} CreatedInv(ring: seq<byte>, creator: nat, max: nat)
    requires 1024 <= |ring| < U32 && |ring| % ENTRY_ALIGN == 0 && max <= |ring|
    ensures Inv(Created(ring, creator, max))
  {
    CreatedQueue(ring, creator, max);
    CreatedWriters(ring, creator, max);
  }

  /** The run theorem for a segment from its creation on. */
  lemma {:induction false} FifoFromCreation(ring: seq<byte>, creator: nat, max: nat, acts: seq<Action>)
    requires 1024 <= |ring| < U32 && |ring| % ENTRY_ALIGN == 0 && max <= |ring|
    requires Orderly(Created(ring, creator, max), acts) && Roomy(Created(ring, creator, max), acts)
    requires Exec(Created(ring, creator, max), acts).Some?
    ensures var t := Exec(Created(ring, creator, max), acts).value;
            var delivered := t.Front().delivered;
            && |delivered| <= |t.published|
            && (forall i | 0 <= i < |delivered| :: delivered[i] == Seen(t.published[i], t.max))
            && Unread(t.ring, t.readPos, t.writePos) == Some(t.published[|delivered|..])
  {
    CreatedInv(ring, creator, max);
    FifoOverRuns(Created(ring, creator, max), acts);
    FrontOfQueue(Exec(Created(ring, creator, max), acts).value);
  }

  lemma FrontOfQueue(t: State)
    requires |t.ring| > 0 && QueueOk(t) && ReadersOk(t)
    ensures var delivered := t.Front().delivered;
            && |delivered| <= |t.published|
            && (forall i | 0 <= i < |delivered| :: delivered[i] == Seen(t.published[i], t.max))
            && Unread(t.ring, t.readPos, t.writePos) == Some(t.published[|delivered|..])
  {
    var r := t.Front();
    assert r.start == 0;
    forall i | 0 <= i < |r.delivered| ensures r.delivered[i] == Seen(t.published[i], t.max) {
      assert r.delivered[i] == Seen(t.published[r.start + i], t.max);
    }
    QueueInRing(t);
    assert Pending(t) == t.published[|r.delivered|..];
  }

  // ---- what holds with no hypothesis on room or takeovers ----

  predicate Aligned(s: State) {
    && |s.ring| > 0 && |s.ring| % ENTRY_ALIGN == 0
    && s.writePos % ENTRY_ALIGN == 0 && s.readPos % ENTRY_ALIGN == 0
    && forall h | h in s.readers :: s.readers[h].cursor % ENTRY_ALIGN == 0
  }

  /** On every run, overrun rings and displaced readers included, positions stay multiples
      of eight. */
  lemma {:induction false} AlignedOverRuns(s: State, acts: seq<Action>)
    requires Aligned(s) && Exec(s, acts).Some?
    ensures Aligned(Exec(s, acts).value)
    decreases |acts|
  {
    if acts != [] {
      AlignedStep(s, acts[0]);
      AlignedOverRuns(Next(s, acts[0]).value, acts[1..]);
    }
  }

  lemma {:induction false} AlignedStep(s: State, a: Action)
    requires Aligned(s) && Next(s, a).Some?
    ensures Aligned(Next(s, a).value)
  {
    if IsRead(a) {
      AlignedRead(s, a, Next(s, a).value);
    } else if IsWrite(a) {
      AlignedWrite(s, a, Next(s, a).value);
    }
  }

  lemma {:induction false} AlignedRead(s: State, a: Action, t: State)
    requires IsRead(a)
    requires Aligned(s) && Reads(s, a) == Some(t)
    ensures Aligned(t)
  {
    ReadFrame(s, a, t);
    ReadAligned(s, a, t);
    forall h | h in t.readers && h != a.h ensures t.readers[h] == s.readers[h] {
    }
  }

  lemma {:induction false} AlignedWrite(s: State, a: Action, t: State)
    requires IsWrite(a)
    requires Aligned(s) && Writes(s, a) == Some(t)
    ensures Aligned(t)
  {
    WriteFrame(s, a, t);
    PublishAligned(s, a, t);
  }

  /** Only publishing moves the write position, and by one entry. */
  lemma PublishMoves(s: State, a: Action, t: State)
    requires |s.ring| > 0 && IsWrite(a) && Writes(s, a) == Some(t)
    ensures t.writePos == s.writePos || (s.Pc(a.w).Copying? && t.writePos == s.writePos + Entry(|s.Pc(a.w).msg|))
  {
  }

  lemma PublishAligned(s: State, a: Action, t: State)
    requires |s.ring| > 0 && IsWrite(a) && Writes(s, a) == Some(t) && s.writePos % ENTRY_ALIGN == 0
    ensures t.writePos % ENTRY_ALIGN == 0
  {
    PublishMoves(s, a, t);
    if s.Pc(a.w).Copying? {
      SumAligned(s.writePos, Entry(|s.Pc(a.w).msg|));
    }
  }

  /** The cell of an aligned position is aligned. */
  lemma AlignedCell(pos: nat, cap: nat)
    requires 0 < cap && cap % ENTRY_ALIGN == 0 && pos % ENTRY_ALIGN == 0
    ensures (pos % cap) % ENTRY_ALIGN == 0
  {
    var k, c := pos / cap, cap / ENTRY_ALIGN;
    assert pos == cap * k + pos % cap;
    Blocks(cap, c, k);
    DiffAligned(pos, c * k, pos % cap);
  }

  /** So a length header is never split over the ring end. */
  lemma HeaderInOnePiece(pos: nat, cap: nat)
    requires 0 < cap && cap % ENTRY_ALIGN == 0 && pos % ENTRY_ALIGN == 0
    ensures pos % cap + HEADER <= cap
  {
    AlignedCell(pos, cap);
    BlockFits(pos % cap, cap);
  }

  lemma Blocks(cap: nat, c: nat, k: nat)
    requires cap == ENTRY_ALIGN * c
    ensures cap * k == ENTRY_ALIGN * (c * k)
  {
  }

  lemma DiffAligned(x: nat, k: nat, y: nat)
    requires x % ENTRY_ALIGN == 0 && x == ENTRY_ALIGN * k + y
    ensures y % ENTRY_ALIGN == 0
  {
  }

  lemma BlockFits(x: nat, cap: nat)
    requires x < cap && x % ENTRY_ALIGN == 0 && cap % ENTRY_ALIGN == 0
    ensures x + ENTRY_ALIGN <= cap
  {
  }
}
