/** One process's handle on a bucket: header words, ring bytes, Write and Read.

    What other processes do while a call waits is a parameter: the read positions a waiting
    writer finds at its wake-ups, the ring and write positions a waiting reader finds.  When
    they run out the deadline has passed.  That these calls are runs of the protocol among
    several processes is shown in module BucketCalls. */
module BucketSegments {
  import opened Bytes
  import opened Wrappers
  import opened Ring
  import opened Memory

  lemma SpliceIsDeposit(ring: seq<byte>, at: nat, src: seq<byte>)
    requires at + |src| <= |ring| && 0 < |ring|
    ensures Splice(ring, at, src) == Deposit(ring, at, src)
  {
    if at < |ring| {
      forall i | 0 <= i < |ring|
        ensures Splice(ring, at, src)[i] == Deposit(ring, at, src)[i]
      {
        assert at % |ring| == at;
      }
    }
  }

  /** The two segments of a wrapping copy are one deposit. */
  lemma SplicesAreDeposit(ring: seq<byte>, at: nat, src: seq<byte>, seg: nat)
    requires 0 < |ring| && at <= |ring| && |src| <= |ring| && seg == |ring| - at && seg < |src|
    ensures Splice(Splice(ring, at, src[..seg]), 0, src[seg..]) == Deposit(ring, at, src)
  {
    SpliceIsDeposit(ring, at, src[..seg]);
    var half := Deposit(ring, at, src[..seg]);
    SpliceIsDeposit(half, 0, src[seg..]);
    assert src[..seg] + src[seg..] == src;
    if seg > 0 {
      assert at + seg == |ring|;
      assert (at + seg) % |ring| == 0 == 0 % |ring|;
      DepositAtIndex(half, at + seg, 0, src[seg..]);
      DepositConcat(ring, at, src[..seg], src[seg..]);
    } else {
      assert src[seg..] == src;
      DepositAtIndex(half, at, 0, src);
      assert half == ring;
    }
  }

  /** What a waiting reader finds when it wakes up. */
  datatype Arrival = Arrival(ring: seq<byte>, writePos: nat, readPos: nat)

  /** The read position at which a writer's wait ends: the first one that lets it in, or
      the last one before the deadline. */
  function DrainedAt(cap: nat, w: nat, r: nat, drains: seq<nat>): nat
    decreases |drains|
  {
    if DrainGuard(cap, w, r) || drains == [] then r else DrainedAt(cap, w, drains[0], drains[1..])
  }

  /** The shared memory at which a reader's wait ends. */
  function WokenAt(cursor: nat, now: Arrival, arrivals: seq<Arrival>): Arrival
    decreases |arrivals|
  {
    if Sub64(now.writePos, cursor) >= HEADER || arrivals == [] then now
    else WokenAt(cursor, arrivals[0], arrivals[1..])
  }

  class BucketSegment {
    const capacity: nat
    const ring: array<byte>
    var magicOk: bool
    var writePos: nat
    var readPos: nat
    var wakeWord: nat
    var drainWord: nat
    var ownerPid: nat
    var cursor: nat

    ghost predicate Valid()
      reads this
    {
      ring.Length == capacity && 1024 <= capacity < U64
    }

    /** The messages a reader at this handle's cursor would take out. */
    ghost function View(): Option<seq<Message>>
      requires Valid()
      reads this, ring
    {
      Unread(ring[..], cursor, writePos)
    }

    constructor (capacity: nat)
      requires 1024 <= capacity < U64
      ensures Valid() && fresh(ring) && this.capacity == capacity
      ensures magicOk && writePos == readPos == cursor == 0
      ensures wakeWord == drainWord == ownerPid == 0
    {
      this.capacity := capacity;
      ring := new byte[capacity](_ => 0);
      magicOk := true;
      writePos, readPos, cursor := 0, 0, 0;
      wakeWord, drainWord, ownerPid := 0, 0, 0;
    }

    /** shmOk stands for shm_open, ftruncate and mmap all succeeding. */
    static method Create(name: string, capacity: nat, shmOk: bool) returns (s: BucketSegment?)
      requires capacity < U64
      ensures s == null
         <==> name == "" || name[0] != '/' || capacity < 1024 || capacity % ENTRY_ALIGN != 0 || !shmOk
      ensures s != null ==> fresh(s) && s.Valid() && s.capacity == capacity && s.View() == Some([])
      ensures s != null ==> s.magicOk && s.ownerPid == 0
    {
      if name == "" || name[0] != '/' || capacity < 1024 || capacity % ENTRY_ALIGN != 0 {
        return null;
      }
      if !shmOk {
        return null;
      }
      s := new BucketSegment(capacity);
    }

    /** ownerGone is what kill(owner, 0) reports: the owner process no longer exists. */
    method ClaimOwnership(me: nat, ownerGone: bool) returns (held: bool)
      requires Valid() && 0 < me
      modifies this`writePos, this`readPos, this`cursor, this`ownerPid
      ensures held <==> magicOk && ownerPid == me
      ensures var resets := magicOk && (old(ownerPid) == 0 || (old(ownerPid) != me && ownerGone));
              && (resets ==> writePos == readPos == cursor == 0 && ownerPid == me && View() == Some([]))
              && (!resets ==> writePos == old(writePos) && readPos == old(readPos))
              && (!resets ==> cursor == old(cursor) && ownerPid == old(ownerPid))
    {
      if !magicOk {
        return false;
      }
      var claimed := false;
      var owner := ownerPid;
      var ownerDead := owner != 0 && owner != me && ownerGone;
      if owner == 0 || ownerDead {
        writePos := 0;
        readPos := 0;
        ownerPid := me;
        cursor := 0;
        claimed := true;
      }
      held := claimed || owner == me;
    }

    /** drains: the read position at each wake-up before the deadline. */
    method WaitDrain(drains: seq<nat>) returns (ok: bool)
      requires Valid()
      modifies this`readPos
      ensures readPos == DrainedAt(capacity, writePos, old(readPos), drains)
      ensures ok == DrainGuard(capacity, writePos, readPos)
    {
      if Sub64(capacity, Sub64(writePos, readPos)) >= ENTRY_ALIGN {
        return true;
      }
      for k := 0 to |drains|
        invariant !DrainGuard(capacity, writePos, readPos)
        invariant DrainedAt(capacity, writePos, old(readPos), drains)
               == DrainedAt(capacity, writePos, readPos, drains[k..])
      {
        readPos := drains[k];
        if Sub64(capacity, Sub64(writePos, readPos)) >= ENTRY_ALIGN {
          return true;
        }
      }
      return false;
    }

    /** Copy src into the ring from index at on, in one or two segments. */
    method CopyIn(at: nat, src: seq<byte>)
      requires Valid() && at <= capacity && |src| <= capacity
      modifies ring
      ensures ring[..] == Deposit(old(ring[..]), at, src)
    {
      ghost var was := ring[..];
      var seg := capacity - at;
      if seg > |src| {
        seg := |src|;
      }
      Memcpy(ring, at, src[..seg]);
      if seg < |src| {
        Memcpy(ring, 0, src[seg..]);
        SplicesAreDeposit(was, at, src, seg);
      } else {
        assert src[..seg] == src;
        SpliceIsDeposit(was, at, src);
      }
    }

    /** The two copies of Write: length header, then payload, each possibly wrapping. */
    method PutRecord(wpos: nat, data: seq<byte>)
      requires Valid() && |data| < U32 && HEADER + |data| <= capacity
      modifies ring
      ensures ring[..] == Deposit(old(ring[..]), wpos, Record(data))
    {
      ghost var was := ring[..];
      var header := Le(|data|, HEADER);
      var off := wpos % capacity;
      ModAdd(wpos, HEADER, capacity);
      if off + HEADER <= capacity {
        Memcpy(ring, off, header);
        SpliceIsDeposit(was, off, header);
        CopyIn(off + HEADER, data);
      } else {
        CopyIn(off, header);
        CopyIn((off + HEADER) % capacity, data);
      }
      PutTwice(was, wpos, off, header, data);
    }

    /** Write one message.  It succeeds iff the wait ends with the drain test passing; a
        failed call has written nothing.  A successful one leaves the record at the write
        position and moves that by the entry size; if the record had room by then, the
        shared queue has gained exactly data. */
    method Write(data: seq<byte>, drains: seq<nat>) returns (ok: bool)
      requires Valid() && |data| < U32
      modifies this`writePos, this`readPos, this`wakeWord, ring
      ensures readPos == if magicOk && Entry(|data|) <= capacity
                         then DrainedAt(capacity, old(writePos), old(readPos), drains) else old(readPos)
      ensures ok <==> magicOk && Entry(|data|) <= capacity && DrainGuard(capacity, old(writePos), readPos)
      ensures !ok ==> ring[..] == old(ring[..]) && writePos == old(writePos) && wakeWord == old(wakeWord)
      ensures ok ==> ring[..] == Deposit(old(ring[..]), old(writePos), Record(data))
      ensures ok ==> writePos == old(writePos) + Entry(|data|) && wakeWord == (old(wakeWord) + 1) % U32
      ensures var queue := Unread(old(ring[..]), readPos, old(writePos));
              ok && queue.Some? && Room(capacity, old(writePos), readPos, |data|)
              ==> Unread(ring[..], readPos, writePos) == Some(queue.value + [data])
    {
      if !magicOk {
        return false;
      }
      var need := (|data| + HEADER) / ENTRY_ALIGN * ENTRY_ALIGN + ENTRY_ALIGN;
      if need > capacity {
        return false;
      }
      ok := WaitDrain(drains);
      if !ok {
        return;
      }
      Append(data, need);
    }

    /** What Write does under the lock once its wait has succeeded. */
    method Append(data: seq<byte>, need: nat)
      requires Valid() && |data| < U32 && need == Entry(|data|) <= capacity
      modifies this`writePos, this`wakeWord, ring
      ensures ring[..] == Deposit(old(ring[..]), old(writePos), Record(data))
      ensures writePos == old(writePos) + need && wakeWord == (old(wakeWord) + 1) % U32
      ensures var queue := Unread(old(ring[..]), readPos, old(writePos));
              queue.Some? && Room(capacity, old(writePos), readPos, |data|)
              ==> Unread(ring[..], readPos, writePos) == Some(queue.value + [data])
    {
      JoinsQueue(ring[..], readPos, writePos, data);
      var wpos := writePos;
      PutRecord(wpos, data);
      writePos := wpos + need;
      wakeWord := (wakeWord + 1) % U32;
    }

    /** The length header at the cursor, possibly split over the ring end. */
    method PeekLength() returns (hdrLen: nat)
      requires Valid()
      ensures hdrLen == Val(Fetch(ring[..], cursor, HEADER))
    {
      var off := cursor % capacity;
      var first := capacity - off;
      FetchSegments(ring[..], cursor, HEADER, if first > HEADER then HEADER else first);
      if first >= HEADER {
        var header := ring[off..off + HEADER];
        assert header == ring[..][off..off + HEADER] + ring[..][..0];
        hdrLen := Val(header);
      } else {
        hdrLen := Val(ring[off..off + first] + ring[..HEADER - first]);
      }
    }

    /** Copy n payload bytes out, possibly split over the ring end. */
    method TakePayload(out: array<byte>, n: nat)
      requires Valid() && n <= out.Length && n <= capacity && out != ring
      modifies out
      ensures out[..] == Splice(old(out[..]), 0, Fetch(ring[..], cursor + HEADER, n))
    {
      var off := (cursor + HEADER) % capacity;
      var f := capacity - off;
      var seg := if f > n then n else f;
      FetchSegments(ring[..], cursor + HEADER, n, seg);
      assert ring[..][off..off + seg] == ring[off..off + seg] && ring[..][..n - seg] == ring[..n - seg];
      CopyOut(out, ring[off..off + seg], ring[..n - seg]);
    }

    /** What Read does with an entry that ends by the write position. */
    method Consume(out: array<byte>, len: nat, n: nat)
      requires Valid() && n <= out.Length && n <= capacity && out != ring && n <= len
      modifies this`cursor, this`readPos, this`drainWord, out
      ensures cursor == readPos == old(cursor) + Entry(len) && drainWord == (old(drainWord) + 1) % U32
      ensures out[..] == Splice(old(out[..]), 0, Fetch(ring[..], old(cursor) + HEADER, n))
    {
      if n > 0 {
        TakePayload(out, n);
      } else {
        SplicePair(out[..], [], []);
        assert Fetch(ring[..], cursor + HEADER, n) == [];
      }
      cursor := cursor + Entry(len);
      readPos := cursor;
      drainWord := (drainWord + 1) % U32;
    }

    /** Read's loop body once a header can be there: refuse an entry that does not end
        by the write position, consume it otherwise. */
    method TakeEntry(out: array<byte>, max: nat) returns (ok: bool, len: nat)
      requires Valid() && max <= out.Length && max <= capacity && out != ring
      requires Sub64(writePos, cursor) >= HEADER
      modifies this`cursor, this`readPos, this`drainWord, out
      ensures !ok ==> cursor == old(cursor) && readPos == old(readPos) && drainWord == old(drainWord)
      ensures !ok ==> out[..] == old(out[..]) && len == 0
      ensures ok <==> Sub64(writePos, old(cursor)) >= Entry(Val(Fetch(ring[..], old(cursor), HEADER)))
      ensures ok ==> TookEntry(ring[..], old(cursor), cursor, max, len, old(out[..]), out[..])
      ensures ok ==> readPos == cursor && drainWord == (old(drainWord) + 1) % U32
      ensures old(View()).Some? && old(cursor) < writePos < old(cursor) + U64
              ==> ok && TookHead(old(View()).value, View(), max, len, old(out[..]), out[..])
    {
      ok, len := false, 0;
      var hdrLen := PeekLength();
      if Sub64(writePos, cursor) >= Entry(hdrLen) {
        Consume(out, hdrLen, if hdrLen > max then max else hdrLen);
        ok, len := true, hdrLen;
      }
      if old(View()).Some? && old(cursor) < writePos < old(cursor) + U64 {
        EntryEnds(ring[..], old(cursor), writePos);
        TookItsHead(ring[..], old(cursor), writePos, cursor, max, len, old(out[..]), out[..]);
      }
    }

    /** What the shared memory looks like from here. */
    ghost function Now(): Arrival
      requires Valid()
      reads this, ring
    {
      Arrival(ring[..], writePos, readPos)
    }

    /** Other processes have moved the shared memory on. */
    method Arrive(a: Arrival)
      requires Valid() && |a.ring| == capacity
      modifies this`writePos, this`readPos, ring
      ensures Now() == a
    {
      forall i | 0 <= i < capacity {
        ring[i] := a.ring[i];
      }
      writePos, readPos := a.writePos, a.readPos;
    }

    /** Read one message into out, truncated to max; an entry is consumed whole even
        when its payload is longer than max.  arrivals: the shared memory at each wake-up
        before the deadline.  On a queue that is well-formed when the wait ends, Read
        succeeds exactly when that queue is not empty, and then takes exactly its head.
        Read's loop and wait_wake's are one loop here: each wake-up leads to a new test. */
    method Read(out: array<byte>, max: nat, arrivals: seq<Arrival>) returns (ok: bool, len: nat)
      requires Valid() && max <= out.Length && max <= capacity && out != ring
      requires forall k | 0 <= k < |arrivals| :: |arrivals[k].ring| == capacity
      modifies this`writePos, this`readPos, this`cursor, this`drainWord, ring, out
      ensures var end := if magicOk then WokenAt(old(cursor), old(Now()), arrivals) else old(Now());
              Now() == if ok then end.(readPos := cursor) else end
      ensures ok <==> magicOk && Sub64(writePos, old(cursor)) >= HEADER
                      && Sub64(writePos, old(cursor)) >= Entry(Val(Fetch(ring[..], old(cursor), HEADER)))
      ensures !ok ==> cursor == old(cursor) && drainWord == old(drainWord) && out[..] == old(out[..]) && len == 0
      ensures ok ==> TookEntry(ring[..], old(cursor), cursor, max, len, old(out[..]), out[..])
      ensures ok ==> drainWord == (old(drainWord) + 1) % U32
      ensures var queue := Unread(ring[..], old(cursor), writePos);
              magicOk && queue.Some? && writePos < old(cursor) + U64
              ==> && (ok <==> queue.value != [])
                  && (ok ==> TookHead(queue.value, View(), max, len, old(out[..]), out[..]))
    {
      ok, len := false, 0;
      if !magicOk {
        return;
      }
      ghost var start := Now();
      for k := 0 to |arrivals| + 1
        invariant cursor == old(cursor) && drainWord == old(drainWord)
        invariant out[..] == old(out[..]) && !ok && len == 0
        invariant k <= |arrivals| ==> WokenAt(cursor, start, arrivals) == WokenAt(cursor, Now(), arrivals[k..])
        invariant k == |arrivals| + 1 ==> Sub64(writePos, cursor) < HEADER
        invariant k == |arrivals| + 1 ==> WokenAt(cursor, start, arrivals) == Now()
      {
        if Sub64(writePos, cursor) >= HEADER {
          ok, len := TakeEntry(out, max);
          return;
        }
        if k < |arrivals| {
          Arrive(arrivals[k]);
        }
      }
      if writePos < cursor + U64 {
        NothingToRead(ring[..], cursor, writePos);
      }
    }
  }

  /** The entry at a cursor, whatever it is, went out, truncated to max, and the cursor
      moved behind it. */
  ghost predicate TookEntry(ring: seq<byte>, cursor: nat, next: nat, max: nat, len: nat, before: seq<byte>,
                            after: seq<byte>)
    requires |ring| > 0
  {
    var n := if len > max then max else len;
    && len == Val(Fetch(ring, cursor, HEADER)) && next == cursor + Entry(len) && n <= |before|
    && after == Splice(before, 0, Fetch(ring, cursor + HEADER, n))
  }

  /** queue's head went out, truncated to max, and the tail is what remains. */
  ghost predicate TookHead(queue: seq<Message>, rest: Option<seq<Message>>, max: nat, len: nat,
                           before: seq<byte>, after: seq<byte>) {
    && queue != [] && rest == Some(queue[1..]) && len == |queue[0]|
    && (if len > max then max else len) <= |before|
    && after == Splice(before, 0, if len > max then queue[0][..max] else queue[0])
  }

  /** In a well-formed ring the entry at the cursor ends by the write position. */
  lemma {:induction false} EntryEnds(ring: seq<byte>, r: nat, w: nat)
    requires |ring| > 0 && Unread(ring, r, w).Some? && r < w < r + U64
    ensures Sub64(w, r) >= Entry(Val(Fetch(ring, r, HEADER)))
  {
    ReadView(ring, r, w, 0);
  }

  /** There, taking the entry is taking the queue's head. */
  lemma {:induction false} TookItsHead(ring: seq<byte>, r: nat, w: nat, next: nat, max: nat, len: nat,
                                       before: seq<byte>, after: seq<byte>)
    requires |ring| > 0 && Unread(ring, r, w).Some? && r < w < r + U64
    requires TookEntry(ring, r, next, max, len, before, after)
    ensures TookHead(Unread(ring, r, w).value, Unread(ring, next, w), max, len, before, after)
  {
    ReadView(ring, r, w, max);
  }

  lemma {:induction false} NothingToRead(ring: seq<byte>, r: nat, w: nat)
    requires |ring| > 0 && Sub64(w, r) < HEADER && w < r + U64
    ensures Unread(ring, r, w) == None || Unread(ring, r, w) == Some([])
  {
  }

  lemma DepositAtIndex(ring: seq<byte>, index: nat, pos: nat, src: seq<byte>)
    requires 0 < |ring| && index % |ring| == pos % |ring|
    ensures Deposit(ring, index, src) == Deposit(ring, pos, src)
  {
  }

  /** Header at an index, payload right behind it: the record as one deposit. */
  lemma PutTwice(ring: seq<byte>, wpos: nat, off: nat, header: seq<byte>, data: seq<byte>)
    requires 0 < |ring| && off == wpos % |ring| && |header| < |ring| && |header| + |data| <= |ring|
    ensures Deposit(Deposit(ring, off, header), off + |header|, data) == Deposit(ring, wpos, header + data)
    ensures Deposit(Deposit(ring, off, header), (off + |header|) % |ring|, data)
         == Deposit(ring, wpos, header + data)
  {
    ModMod(wpos, |ring|);
    ModMod(off + |header|, |ring|);
    ModAdd(wpos, |header|, |ring|);
    ModAdd(off, |header|, |ring|);
    DepositAtIndex(ring, off, wpos, header);
    PutBehind(Deposit(ring, wpos, header), wpos, off, |header|, data);
    DepositConcat(ring, wpos, header, data);
  }

  lemma PutBehind(half: seq<byte>, wpos: nat, off: nat, n: nat, data: seq<byte>)
    requires 0 < |half| && (off + n) % |half| == (wpos + n) % |half|
    requires (off + n) % |half| % |half| == (off + n) % |half|
    ensures Deposit(half, off + n, data) == Deposit(half, wpos + n, data)
    ensures Deposit(half, (off + n) % |half|, data) == Deposit(half, wpos + n, data)
  {
    DepositAtIndex(half, off + n, wpos + n, data);
    DepositAtIndex(half, (off + n) % |half|, wpos + n, data);
  }

  /** The two memcpy segments of Read are one wrapped fetch. */
  lemma FetchSegments(ring: seq<byte>, at: nat, n: nat, seg: nat)
    requires 0 < |ring| && n <= |ring|
    requires seg == if |ring| - at % |ring| > n then n else |ring| - at % |ring|
    ensures Fetch(ring, at, n) == ring[at % |ring|..at % |ring| + seg] + ring[..n - seg]
  {
    forall j | 0 <= j < n
      ensures Fetch(ring, at, n)[j] == (ring[at % |ring|..at % |ring| + seg] + ring[..n - seg])[j]
    {
      ModAdd(at, j, |ring|);
    }
  }

  /** A record with room is appended to what the reader sees, and nothing else changes. */
  lemma {:induction false} UnreadAfterWrite(ring: seq<byte>, r: nat, w: nat, m: Message, ms: seq<Message>)
    requires |ring| > 0 && Unread(ring, r, w) == Some(ms) && Room(|ring|, w, r, |m|)
    ensures Unread(Deposit(ring, w, Record(m)), r, w + Entry(|m|)) == Some(ms + [m])
  {
    UnreadIsHeld(ring, r, w, ms);
    HoldsAfterWrite(ring, r, w, m, ms);
    HeldIsUnread(Deposit(ring, w, Record(m)), r, w + Entry(|m|), ms + [m]);
  }

  lemma {:induction false} UnreadIsHeld(ring: seq<byte>, r: nat, w: nat, ms: seq<Message>)
    requires |ring| > 0 && Unread(ring, r, w) == Some(ms)
    ensures Holds(ring, r, ms) && End(r, ms) == w
  {
    UnreadIff(ring, r, w, ms);
  }

  lemma {:induction false} HeldIsUnread(ring: seq<byte>, r: nat, w: nat, ms: seq<Message>)
    requires |ring| > 0 && Holds(ring, r, ms) && End(r, ms) == w
    ensures Unread(ring, r, w) == Some(ms)
  {
    UnreadIff(ring, r, w, ms);
  }

  lemma {:induction false} JoinsQueue(ring: seq<byte>, r: nat, w: nat, m: Message)
    requires |ring| > 0
    ensures var queue := Unread(ring, r, w);
            queue.Some? && Room(|ring|, w, r, |m|)
            ==> Unread(Deposit(ring, w, Record(m)), r, w + Entry(|m|)) == Some(queue.value + [m])
  {
    var queue := Unread(ring, r, w);
    if queue.Some? && Room(|ring|, w, r, |m|) {
      UnreadAfterWrite(ring, r, w, m, queue.value);
    }
  }

  /** What one read takes from a well-formed ring is the head of the queue. */
  lemma {:induction false} ReadView(ring: seq<byte>, r: nat, w: nat, max: nat)
    requires |ring| > 0 && Unread(ring, r, w).Some? && r < w < r + U64
    ensures var ms := Unread(ring, r, w).value;
            var h := Val(Fetch(ring, r, HEADER));
            && ms != [] && Sub64(w, r) >= HEADER && Sub64(w, r) >= Entry(h) && |ms[0]| == h
            && Fetch(ring, r + HEADER, if h > max then max else h) == (if h > max then ms[0][..max] else ms[0])
            && Unread(ring, r + Entry(h), w) == Some(ms[1..])
  {
    var h := Val(Fetch(ring, r, HEADER));
    assert Unread(ring, r, w).value[0] == Fetch(ring, r + HEADER, h);
  }
}
