/** Taking a ring over from a reader that is still there.

    The creator of a segment never claims it, so its owner word stays 0 and the next
    process that opens the segment resets it under the creator's feet; a process that owns
    the ring may also open it once more.  Either way two handles then read one ring.  This
    module shows what that does, and that nothing else can go wrong with a takeover. */
module BucketTakeover {
  import opened Bytes
  import opened Wrappers
  import opened Ring
  import opened BucketProtocol
  import opened BucketRuns
  import opened BucketGuard

  // ---- what a displaced reader does ----

  /** The messages handed to Write in a run. */
  function Sent(acts: seq<Action>): seq<Message> {
    if acts == [] then []
    else (if acts[0].Call? then [acts[0].msg] else []) + Sent(acts[1..])
  }

  lemma {:induction false} SentConcat(a: seq<Action>, b: seq<Action>)
    ensures Sent(a + b) == Sent(a) + Sent(b)
    decreases |a|
  {
    if a == [] {
      assert a + b == b;
    } else {
      assert (a + b)[0] == a[0] && (a + b)[1..] == a[1..] + b;
      SentConcat(a[1..], b);
    }
  }

  lemma {:induction false} SentNothing(acts: seq<Action>)
    requires forall a | a in acts :: !a.Call?
    ensures Sent(acts) == []
    decreases |acts|
  {
    if acts != [] {
      assert acts[0] in acts;
      SentNothing(acts[1..]);
    }
  }

  lemma SentByWrite(w: nat, m: Message)
    ensures Sent(SoloWrite(w, m)) == [m]
  {
    var rest := [Acquire(w)] + FinishWrite(w, m);
    assert SoloWrite(w, m) == [Call(w, m)] + rest && ([Call(w, m)] + rest)[1..] == rest;
    SentNothing(rest);
  }

  /** The reset ring is empty, yet a reader displaced from a position c > 0 finds c bytes
      less than 2^64 to read: it delivers whatever lies at its old cursor and puts the
      shared read position ahead of the write position. */
  lemma {:induction false} DisplacedReads(s: State, h: nat, p: nat)
    requires |s.ring| > 0 && Claims(s, h, p).Some? && Resets(s, p)
    requires s.Active(s.front) && s.Front().pc.Resting? && 0 < s.Front().cursor < U64 - 2 * U32
    ensures var t := Claims(s, h, p).value;
            var u := AfterRead(t, s.front);
            && Fair(t, SoloRead(s.front, Copied(t, s.front)), u)
            && u.published == [] && u.writePos == 0 < u.readPos
            && |u.Handle(s.front).delivered| == |s.Front().delivered| + 1
  {
    var t := Claims(s, h, p).value;
    assert t.Handle(s.front) == s.Front() && t.Active(s.front);
    LengthBound(t.ring, s.Front().cursor);
    assert Sub64(0, s.Front().cursor) == U64 - s.Front().cursor;
    FairRead(t, s.front);
  }

  /** A handle at the write position reads the next message written. */
  lemma NextWritten(s: State, w: nat, m: Message, h: nat)
    requires |s.ring| > 0 && Entry(|m|) <= |s.ring| && s.Handle(h).cursor == s.writePos
    ensures var u := Written(s, w, m);
            && u.Handle(h) == s.Handle(h) && LengthAt(u, h) == |m|
            && Sub64(u.writePos, s.writePos) >= Entry(LengthAt(u, h))
            && Delivery(LengthAt(u, h), Fetch(u.ring, s.writePos + HEADER, Copied(u, h))) == Seen(m, s.max)
  {
    WrittenFields(s, w, m, h);
    NextIs(Written(s, w, m), h, s.ring, s.writePos, m);
  }

  lemma NextIs(u: State, h: nat, ring: seq<byte>, at: nat, m: Message)
    requires 0 < |ring| && |Record(m)| <= |ring|
    requires u.ring == Deposit(ring, at, Record(m)) && u.Handle(h).cursor == at
    ensures LengthAt(u, h) == |m|
    ensures Delivery(LengthAt(u, h), Fetch(u.ring, at + HEADER, Copied(u, h))) == Seen(m, u.max)
  {
    DepositedMessage(ring, at, m, u.max);
    HeaderSays(u, h, at, m);
  }

  lemma WrittenFields(s: State, w: nat, m: Message, h: nat)
    requires |s.ring| > 0
    ensures var u := Written(s, w, m);
            && u.ring == Deposit(s.ring, s.writePos, Record(m)) && u.max == s.max && u.Handle(h) == s.Handle(h)
            && Sub64(u.writePos, s.writePos) >= Entry(|m|)
  {
  }

  lemma HeaderSays(u: State, h: nat, at: nat, m: Message)
    requires |u.ring| > 0 && u.Handle(h).cursor == at && Val(Fetch(u.ring, at, HEADER)) == |m|
    requires Fetch(u.ring, at + HEADER, if |m| > u.max then u.max else |m|) == if |m| > u.max then m[..u.max] else m
    ensures LengthAt(u, h) == |m|
    ensures Delivery(LengthAt(u, h), Fetch(u.ring, at + HEADER, Copied(u, h))) == Seen(m, u.max)
  {
  }

  lemma DepositedMessage(ring: seq<byte>, w: nat, m: Message, max: nat)
    requires 0 < |ring| && |Record(m)| <= |ring|
    ensures var after := Deposit(ring, w, Record(m));
            && Val(Fetch(after, w, HEADER)) == |m|
            && Fetch(after, w + HEADER, if |m| > max then max else |m|) == if |m| > max then m[..max] else m
  {
    var after := Deposit(ring, w, Record(m));
    FetchDeposit(ring, w, Record(m));
    FetchRecord(after, w, m);
    FetchPrefix(after, w + HEADER, |m|, if |m| > max then max else |m|);
  }

  lemma SentByRead(h: nat, n: nat)
    ensures Sent(SoloRead(h, n)) == []
  {
    SentNothing(SoloRead(h, n));
  }

  /** One message is written and read. */
  lemma {:induction false} OneMessage(ring: seq<byte>, max: nat, m: Message) returns (acts: seq<Action>, t: State)
    requires 1024 <= |ring| < U32 && Entry(|m|) <= |ring|
    ensures Exec(Created(ring, 1, max), acts) == Some(t) && Sent(acts) == [m]
    ensures t.Handle(0) == Reader(1, Entry(|m|), 0, [Seen(m, max)], Resting)
    ensures t.Active(0) && 1 !in t.readers
    ensures t.ownerPid == 0 && t.gone == {} && t.front == 0 && t.lock == Free && |t.ring| == |ring|
  {
    var s := Created(ring, 1, max);
    assert s.Handle(0) == Reader(1, 0, 0, [], Resting);
    FairWrite(s, 2, m);
    var u := Written(s, 2, m);
    NextWritten(s, 2, m, 0);
    FairRead(u, 0);
    t := AfterRead(u, 0);
    acts := SoloWrite(2, m) + SoloRead(0, Copied(u, 0));
    ExecConcat(s, SoloWrite(2, m), SoloRead(0, Copied(u, 0)));
    SentByWrite(2, m);
    SentByRead(0, Copied(u, 0));
    SentConcat(SoloWrite(2, m), SoloRead(0, Copied(u, 0)));
    ReadOnce(u, m);
  }

  lemma ReadOnce(u: State, m: Message)
    requires |u.ring| > 0 && u.Active(0) && u.Handle(0) == Reader(1, 0, 0, [], Resting) && LengthAt(u, 0) == |m|
    requires Delivery(LengthAt(u, 0), Fetch(u.ring, HEADER, Copied(u, 0))) == Seen(m, u.max)
    ensures AfterRead(u, 0).Handle(0) == Reader(1, Entry(|m|), 0, [Seen(m, u.max)], Resting)
  {
    var r := u.Handle(0);
    assert r.cursor + HEADER == HEADER;
    assert r.delivered + [Seen(m, u.max)] == [Seen(m, u.max)];
  }

  /** From creation on: one message is written and read, a second process opens the
      segment, and the creator, which is still there, delivers a second message. */
  lemma {:induction false} CreatorReadsOn(ring: seq<byte>, max: nat, m: Message, p: nat)
    returns (acts: seq<Action>, t: State)
    requires 1024 <= |ring| < U32 && Entry(|m|) <= |ring| && p > 1
    ensures Exec(Created(ring, 1, max), acts) == Some(t) && Sent(acts) == [m]
    ensures t.ownerPid == p && t.gone == {} && t.published == [] && t.writePos == 0 < t.readPos
    ensures |t.Handle(0).delivered| == 2 && t.Handle(0).delivered[0] == Seen(m, max)
  {
    var first, s := OneMessage(ring, max, m);
    DisplacedReads(s, 1, p);
    var u := Claims(s, 1, p).value;
    t := AfterRead(u, 0);
    var n := Copied(u, 0);
    acts := first + ([Claim(1, p)] + SoloRead(0, n));
    ExecStep(s, Claim(1, p), SoloRead(0, n));
    ExecConcat(Created(ring, 1, max), first, [Claim(1, p)] + SoloRead(0, n));
    SentByRead(0, n);
    assert ([Claim(1, p)] + SoloRead(0, n))[1..] == SoloRead(0, n);
    SentConcat(first, [Claim(1, p)] + SoloRead(0, n));
  }

  // ---- breaking the new reader's queue ----

  /** Payload that puts the byte v where offset j of its record falls, zero elsewhere. */
  function Spoiler(len: nat, j: nat, v: byte): (m: Message)
    requires HEADER <= j && j - HEADER < len < U32
    ensures |m| == len && m[j - HEADER] == v
    ensures forall i | 0 <= i < len && i != j - HEADER :: m[i] == 0
  {
    Zeros(len)[j - HEADER := v]
  }

  /** Four little-endian bytes whose value is their first one. */
  lemma {:induction false} SmallHeader(bs: seq<byte>)
    requires |bs| == HEADER && bs[1] == bs[2] == bs[3] == 0
    ensures Val(bs) == bs[0]
  {
    assert bs[1..][0] == 0 && bs[1..][1..] == bs[2..] && bs[2..][1..] == bs[3..] && bs[3..][1..] == [];
    assert bs[2..][0] == bs[2] && bs[3..][0] == bs[3];
    assert Val(bs[3..]) == 0 && Val(bs[2..]) == 0 && Val(bs[1..]) == 0;
  }

  /** A record of all but one byte of the ring covers every aligned header but its own
      cell's; there is a message of that size which makes the header at c say something
      other than len0, and say it of an entry that is wholly written. */
  lemma {:induction false} SpoilHeader(ring: seq<byte>, w: nat, c: nat, len0: nat) returns (m: Message)
    requires 1024 <= |ring| < U32 && |ring| % ENTRY_ALIGN == 0 && w % ENTRY_ALIGN == 0 && c % ENTRY_ALIGN == 0
    ensures Entry(|m|) == |ring| && |Record(m)| < |ring|
    ensures var h := Val(Fetch(Deposit(ring, w, Record(m)), c, HEADER));
            h != len0 && Entry(h) <= |ring|
  {
    var cap := |ring|;
    var j := Ahead(c % cap, w, cap);
    HeaderOffset(cap, w, c);
    WholeRing(cap);
    if j == 0 {
      m := SpoilInPlace(ring, w, c, len0);
    } else {
      m := SpoilElsewhere(ring, w, c, len0, j);
    }
  }

  lemma {:induction false} SpoilInPlace(ring: seq<byte>, w: nat, c: nat, len0: nat) returns (m: Message)
    requires 1024 <= |ring| < U32 && |ring| % ENTRY_ALIGN == 0 && c % |ring| == w % |ring|
    ensures |m| == |ring| - 5 || |m| == |ring| - 6
    ensures var h := Val(Fetch(Deposit(ring, w, Record(m)), c, HEADER)); h != len0 && Entry(h) <= |ring|
  {
    WholeRing(|ring|);
    m := Zeros(if len0 == |ring| - 5 then |ring| - 6 else |ring| - 5);
    SpoilsOwn(ring, w, c, m);
  }

  lemma {:induction false} SpoilElsewhere(ring: seq<byte>, w: nat, c: nat, len0: nat, j: nat) returns (m: Message)
    requires 1024 <= |ring| < U32 && |ring| % ENTRY_ALIGN == 0
    requires HEADER <= j && j + ENTRY_ALIGN <= |ring| && c % |ring| == (w + j) % |ring|
    ensures |m| == |ring| - 5
    ensures var h := Val(Fetch(Deposit(ring, w, Record(m)), c, HEADER)); h != len0 && Entry(h) <= |ring|
  {
    WholeRing(|ring|);
    var v: byte := if len0 == 0 then 1 else 0;
    m := Spoiler(|ring| - 5, j, v);
    SpoilsOther(ring, w, c, m, j);
  }

  lemma WholeRing(cap: nat)
    requires 1024 <= cap && cap % ENTRY_ALIGN == 0
    ensures Entry(cap - 5) == Entry(cap - 6) == cap && Entry(0) <= cap && Entry(1) <= cap
  {
  }

  /** Where a header lies in a record written at w: at an aligned distance. */
  lemma HeaderOffset(cap: nat, w: nat, c: nat)
    requires 1024 <= cap && cap % ENTRY_ALIGN == 0 && w % ENTRY_ALIGN == 0 && c % ENTRY_ALIGN == 0
    ensures var j := Ahead(c % cap, w, cap);
            j % ENTRY_ALIGN == 0 && j + ENTRY_ALIGN <= cap && c % cap == (w + j) % cap
  {
    AlignedCell(w, cap);
    AlignedCell(c, cap);
    AheadAligned(c % cap, w % cap, cap);
    ModAdd(w, Ahead(c % cap, w, cap), cap);
  }

  lemma AheadAligned(i: nat, a: nat, cap: nat)
    requires i < cap && a < cap && i % ENTRY_ALIGN == 0 && a % ENTRY_ALIGN == 0 && cap % ENTRY_ALIGN == 0
    ensures var j := if i >= a then i - a else i - a + cap;
            j % ENTRY_ALIGN == 0 && j + ENTRY_ALIGN <= cap
  {
  }

  lemma {:induction false} SpoilsOther(ring: seq<byte>, w: nat, c: nat, m: Message, j: nat)
    requires 0 < |ring| && |Record(m)| <= |ring| && HEADER <= j && j + HEADER <= |Record(m)|
    requires c % |ring| == (w + j) % |ring|
    requires m[j - HEADER + 1] == m[j - HEADER + 2] == m[j - HEADER + 3] == 0
    ensures Val(Fetch(Deposit(ring, w, Record(m)), c, HEADER)) == m[j - HEADER]
  {
    var after := Deposit(ring, w, Record(m));
    SliceOfRecord(ring, w, m, j);
    SameCells(after, c, w + j, HEADER);
    SmallHeader(m[j - HEADER..j]);
  }

  lemma SliceOfRecord(ring: seq<byte>, w: nat, m: Message, j: nat)
    requires 0 < |ring| && |Record(m)| <= |ring| && HEADER <= j && j + HEADER <= |Record(m)|
    ensures Fetch(Deposit(ring, w, Record(m)), w + j, HEADER) == m[j - HEADER..j]
  {
    FetchDeposit(ring, w, Record(m));
    FetchSlice(Deposit(ring, w, Record(m)), w, Record(m), j, HEADER);
    PayloadSlice(m, j);
  }

  lemma FetchSlice(ring: seq<byte>, at: nat, src: seq<byte>, j: nat, n: nat)
    requires |ring| > 0 && Fetch(ring, at, |src|) == src && j + n <= |src|
    ensures Fetch(ring, at + j, n) == src[j..j + n]
  {
    var got, want := Fetch(ring, at + j, n), src[j..j + n];
    forall i | 0 <= i < n ensures got[i] == want[i] {
      assert Fetch(ring, at, |src|)[j + i] == ring[(at + j + i) % |ring|];
    }
  }

  lemma PayloadSlice(m: Message, j: nat)
    requires HEADER <= j && j + HEADER <= |Record(m)|
    ensures Record(m)[j..j + HEADER] == m[j - HEADER..j]
  {
  }

  /** The front handle has a message waiting, a writer may write all round the ring, and
      then the front handle delivers something else. */
  ghost predicate Exposed(u: State, w: nat) {
    && 1024 <= |u.ring| < U32 && |u.ring| % ENTRY_ALIGN == 0
    && u.writePos % ENTRY_ALIGN == 0 && u.Front().cursor % ENTRY_ALIGN == 0
    && u.Front().cursor < u.writePos <= u.readPos && u.readPos + U32 < U64
    && u.Active(u.front) && u.Front().pc.Resting?
    && Fifo(u) && Pending(u) != [] && u.Pc(w).Idle? && !u.lock.Held?
  }

  lemma {:induction false} ExposedBreaks(u: State, w: nat) returns (acts: seq<Action>, t: State)
    requires Exposed(u, w)
    ensures Fair(u, acts, t) && !Fifo(t)
  {
    var cap := |u.ring|;
    var m := SpoilHeader(u.ring, u.writePos, u.Front().cursor, |Pending(u)[0]|);
    assert DrainGuard(cap, u.writePos, u.readPos) by {
      GuardAhead(cap, u.writePos, u.readPos);
    }
    FairWrite(u, w, m);
    var v := Written(u, w, m);
    assert v.Front() == u.Front();
    FairRead(v, v.front);
    t := AfterRead(v, v.front);
    acts := SoloWrite(w, m) + SoloRead(v.front, Copied(v, v.front));
    FairConcat(u, SoloWrite(w, m), v, SoloRead(v.front, Copied(v, v.front)), t);
    WrongNext(u, m, v, t);
  }

  lemma GuardAhead(cap: nat, w: nat, r: nat)
    requires ENTRY_ALIGN <= cap < U32 && w <= r && r + U32 < U64
    ensures DrainGuard(cap, w, r)
  {
    var d := r - w;
    if d > 0 {
      assert (w - r) % U64 == U64 - d;
      assert (cap - (U64 - d)) % U64 == cap + d;
    }
  }

  lemma WrongNext(u: State, m: Message, v: State, t: State)
    requires Fifo(u) && Pending(u) != [] && v.Front() == u.Front() && v.published == u.published + [m]
    requires |v.ring| > 0 && LengthAt(v, v.front) != |Pending(u)[0]| && t == AfterRead(v, v.front)
    ensures !Fifo(t)
  {
    var k := |u.Front().delivered|;
    var r := t.Front();
    assert r.start == u.Front().start && r.delivered[k].len == LengthAt(v, v.front);
    assert t.published[r.start + k] == Pending(u)[0];
  }

  // ---- from a disorderly claim to a broken queue ----

  /** Positions stay clear of the counters' 64 bits. */
  predicate Early(s: State) {
    s.writePos + 4 * U32 < U64
  }

  /** The front handle of s, in the middle of a read, is reading the oldest message. */
  lemma {:induction false} MidRead(s: State)
    requires Inv(s) && Early(s) && s.Front().pc.Reading?
    ensures var (snap, k) := (s.Front().pc.snap, |s.Front().pc.got|);
            && s.Front().pc.got == Fetch(s.ring, s.readPos, k) && k <= HEADER + Copied(s, s.front)
            && LengthAt(s, s.front) == |Pending(s)[0]|
            && Sub64(snap, s.readPos) >= Entry(LengthAt(s, s.front))
  {
    var m := Pending(s)[0];
    FetchRecord(s.ring, s.readPos, m);
    FetchPrefix(s.ring, s.readPos, |Record(m)|, |s.Front().pc.got|);
  }

  /** A state that still has the ring and the old front handle of s. */
  ghost predicate Displaced(s: State, t: State) {
    && t.ring == s.ring && t.max == s.max && t.gone == s.gone
    && s.Active(s.front) && s.front in t.readers && t.Handle(s.front) == s.Front()
  }

  lemma {:induction false} FinishDisplaced(s: State, t: State) returns (acts: seq<Action>)
    requires Inv(s) && Early(s) && Displaced(s, t) && s.Front().pc.Reading?
    ensures Fair(t, acts, AfterRead(t, s.front)) && LengthAt(t, s.front) == |Pending(s)[0]|
  {
    var d, snap, k := s.front, s.Front().pc.snap, |s.Front().pc.got|;
    MidRead(s);
    assert t.readers[d := t.Handle(d)] == t.readers;
    assert Midway(t, d, snap, k) == t;
    FinishReadRun(t, d, snap, k);
    acts := FinishRead(d, HEADER + Copied(t, d) - k);
    FairPlain(t, acts, AfterRead(t, d));
  }

  lemma FreshWriter(s: set<nat>) returns (w: nat)
    ensures w !in s && forall x | x in s :: x < w
  {
    if s == {} {
      w := 0;
    } else {
      var x :| x in s;
      var v := FreshWriter(s - {x});
      w := if x < v then v else x + 1;
      forall y | y in s ensures y < w {
        assert y == x || y in s - {x};
      }
    }
  }

  /** The ring just reset to a new handle h, by process p. */
  ghost predicate JustReset(t: State, h: nat, p: nat) {
    && t.writePos == 0 && t.readPos == 0 && t.published == [] && t.lock == Free
    && t.front == h && t.Front() == Reader(p, 0, 0, [], Resting) && h in t.readers && p !in t.gone
  }

  /** The displaced reader has something to read, or reads the first message there is:
      either way the read position ends up beside the write position. */
  lemma {:induction false} ResetExposes(s: State, h: nat, p: nat, t: State, w: nat) returns (acts: seq<Action>, u: State)
    requires Inv(s) && Early(s) && Displaced(s, t) && JustReset(t, h, p) && h != s.front && t.Pc(w).Idle?
    ensures Fair(t, acts, u) && Exposed(u, w)
  {
    var d := s.front;
    if s.Front().pc.Resting? && s.Front().cursor == 0 {
      acts, u := ReadsTheFirst(t, d, w);
    } else {
      var first := ReadsStale(s, t);
      acts, u := StaleExposes(s, t, first, w);
    }
  }

  lemma {:induction false} StaleExposes(s: State, t: State, first: seq<Action>, w: nat)
    returns (acts: seq<Action>, u: State)
    requires Inv(s) && Early(s) && Displaced(s, t) && t.Pc(w).Idle? && s.front != t.front && t.front in t.readers
    requires t.writePos == 0 && t.published == [] && t.lock == Free && t.Active(t.front)
    requires t.Front() == Reader(t.Front().pid, 0, 0, [], Resting) && Fair(t, first, AfterRead(t, s.front))
    ensures Fair(t, acts, u) && Exposed(u, w)
  {
    var t1 := AfterRead(t, s.front);
    StaleAhead(s, t);
    GuardAhead(|t1.ring|, 0, t1.readPos);
    FairWrite(t1, w, []);
    u := Written(t1, w, []);
    acts := first + SoloWrite(w, []);
    FairConcat(t, first, t1, SoloWrite(w, []), u);
    ResetExposed(t, t1, w, u);
  }

  /** The displaced handle's read puts the read position ahead of everything. */
  lemma StaleAhead(s: State, t: State)
    requires Inv(s) && Early(s) && Displaced(s, t) && s.front != t.front && t.front in t.readers
    requires t.Active(t.front)
    ensures var t1 := AfterRead(t, s.front);
            && ENTRY_ALIGN <= t1.readPos && t1.readPos + U32 < U64
            && t1.Front() == t.Front() && t1.Active(t1.front)
  {
    LengthBound(t.ring, t.Handle(s.front).cursor);
    FrontUntouched(t, s.front);
  }

  lemma ResetExposed(t: State, t1: State, w: nat, u: State)
    requires 1024 <= |t.ring| < U32 && |t.ring| % ENTRY_ALIGN == 0
    requires t1.ring == t.ring && t1.writePos == 0 && t1.published == [] && t1.Active(t1.front)
    requires t1.Front() == Reader(t.Front().pid, 0, 0, [], Resting)
    requires ENTRY_ALIGN <= t1.readPos && t1.readPos + U32 < U64
    requires u == Written(t1, w, [])
    ensures Exposed(u, w)
  {
    assert u.Front() == t1.Front() && u.published == [[]];
    assert Pending(u) == [[]];
  }

  lemma {:induction false} ReadsStale(s: State, t: State) returns (acts: seq<Action>)
    requires Inv(s) && Early(s) && Displaced(s, t) && t.writePos == 0
    requires s.Front().pc.Reading? || s.Front().cursor > 0
    ensures Fair(t, acts, AfterRead(t, s.front))
  {
    if s.Front().pc.Reading? {
      acts := FinishDisplaced(s, t);
    } else {
      LengthBound(t.ring, s.Front().cursor);
      StaleDistance(s.Front().cursor);
      FairRead(t, s.front);
      acts := SoloRead(s.front, Copied(t, s.front));
    }
  }

  lemma StaleDistance(c: nat)
    requires 0 < c < U64 - 2 * U32
    ensures Sub64(0, c) >= 2 * U32
  {
    assert (0 - c) % U64 == U64 - c;
  }

  lemma {:induction false} ReadsTheFirst(t: State, d: nat, w: nat) returns (acts: seq<Action>, u: State)
    requires 1024 <= |t.ring| < U32 && |t.ring| % ENTRY_ALIGN == 0 && t.Pc(w).Idle?
    requires t.writePos == 0 && t.readPos == 0 && t.published == [] && t.lock == Free
    requires t.Active(t.front) && t.Front() == Reader(t.Front().pid, 0, 0, [], Resting)
    requires t.Active(d) && d != t.front && t.Handle(d).pc.Resting? && t.Handle(d).cursor == 0
    ensures Fair(t, acts, u) && Exposed(u, w)
  {
    GuardAhead(|t.ring|, 0, 0);
    FairWrite(t, w, []);
    var t1 := Written(t, w, []);
    NextWritten(t, w, [], d);
    FairRead(t1, d);
    u := AfterRead(t1, d);
    acts := SoloWrite(w, []) + SoloRead(d, Copied(t1, d));
    FairConcat(t, SoloWrite(w, []), t1, SoloRead(d, Copied(t1, d)), u);
    assert u.Front() == t.Front() && u.published == [[]];
    assert Pending(u) == [[]];
  }

  // ---- the owner opens its ring once more ----

  /** y differs from x only by what handle d has read. */
  ghost predicate OnlyRead(x: State, y: State, d: nat) {
    y == x.(readers := y.readers, readPos := y.readPos) && y.readers == x.readers[d := y.Handle(d)]
  }

  /** Handle d is at the read position, with exactly ms in front of it. */
  ghost predicate Facing(x: State, d: nat, ms: seq<Message>) {
    && |x.ring| > 0 && x.Active(d) && x.Handle(d).pc.Resting? && x.Handle(d).cursor == x.readPos
    && Holds(x.ring, x.readPos, ms) && End(x.readPos, ms) == x.writePos < U64
  }

  lemma {:induction false} FaceNext(x: State, d: nat, ms: seq<Message>)
    requires Facing(x, d, ms) && ms != []
    ensures Fair(x, SoloRead(d, Copied(x, d)), AfterRead(x, d))
    ensures Facing(AfterRead(x, d), d, ms[1..]) && OnlyRead(x, AfterRead(x, d), d)
  {
    FetchRecord(x.ring, x.readPos, ms[0]);
    FairRead(x, d);
  }

  lemma {:induction false} ReadAll(x: State, d: nat, ms: seq<Message>) returns (acts: seq<Action>, y: State)
    requires Facing(x, d, ms)
    ensures Fair(x, acts, y) && OnlyRead(x, y, d) && y.readPos == y.writePos
    decreases |ms|
  {
    if ms == [] {
      acts, y := [], x;
      assert x.readers[d := x.Handle(d)] == x.readers;
    } else {
      FaceNext(x, d, ms);
      var z := AfterRead(x, d);
      var rest;
      rest, y := ReadAll(z, d, ms[1..]);
      acts := SoloRead(d, Copied(x, d)) + rest;
      FairConcat(x, SoloRead(d, Copied(x, d)), z, rest, y);
      OnlyReadTwice(x, z, y, d);
    }
  }

  /** The ring with a second handle h at the same place as the front handle of s. */
  ghost predicate Joined(s: State, h: nat, t: State) {
    && h != s.front && h !in s.readers
    && t == s.Put(h, t.Handle(h)).(lock := Free, front := h) && t.Active(h)
    && t.Handle(h) == Reader(t.Handle(h).pid, s.readPos, s.Front().start + |s.Front().delivered|, [], Resting)
  }

  lemma {:induction false} JoinExposes(s: State, h: nat, t: State, w: nat) returns (acts: seq<Action>, u: State)
    requires Inv(s) && Aligned(s) && Early(s) && s.Active(s.front) && Joined(s, h, t) && t.Pc(w).Idle?
    ensures Fair(t, acts, u) && Exposed(u, w)
  {
    var d := s.front;
    assert t.Handle(d) == s.Front();
    assert Displaced(s, t);
    if s.Front().pc.Reading? {
      acts, u := JoinMidRead(s, h, t, w);
    } else if Pending(s) == [] {
      acts, u := JoinEmpty(s, h, t, w);
    } else {
      acts, u := ReadAll(t, d, Pending(s));
      JoinedExposed(s, h, t, w, u);
    }
  }

  lemma {:induction false} JoinMidRead(s: State, h: nat, t: State, w: nat) returns (acts: seq<Action>, u: State)
    requires Inv(s) && Aligned(s) && Early(s) && Displaced(s, t) && Joined(s, h, t) && t.Pc(w).Idle?
    requires s.Front().pc.Reading?
    ensures Fair(t, acts, u) && Exposed(u, w)
  {
    var d := s.front;
    var first := FinishDisplaced(s, t);
    var x := AfterRead(t, d);
    MidReadFacing(s, h, t);
    var rest;
    rest, u := ReadAll(x, d, Pending(s)[1..]);
    acts := first + rest;
    FairConcat(t, first, x, rest, u);
    OnlyReadTwice(t, x, u, d);
    JoinedExposed(s, h, t, w, u);
  }

  lemma {:induction false} MidReadFacing(s: State, h: nat, t: State)
    requires Inv(s) && Early(s) && Displaced(s, t) && Joined(s, h, t) && s.Front().pc.Reading?
    requires LengthAt(t, s.front) == |Pending(s)[0]|
    ensures Pending(s) != [] && Facing(AfterRead(t, s.front), s.front, Pending(s)[1..])
    ensures OnlyRead(t, AfterRead(t, s.front), s.front)
  {
    assert t.Handle(s.front).cursor == s.readPos;
  }

  lemma OnlyReadTwice(t: State, x: State, u: State, d: nat)
    requires OnlyRead(t, x, d) && OnlyRead(x, u, d)
    ensures OnlyRead(t, u, d)
  {
    assert t.readers[d := x.Handle(d)][d := u.Handle(d)] == t.readers[d := u.Handle(d)];
  }

  lemma {:induction false} JoinEmpty(s: State, h: nat, t: State, w: nat) returns (acts: seq<Action>, u: State)
    requires Inv(s) && Aligned(s) && Early(s) && Displaced(s, t) && Joined(s, h, t) && t.Pc(w).Idle?
    requires Pending(s) == [] && s.Front().pc.Resting?
    ensures Fair(t, acts, u) && Exposed(u, w)
  {
    var d := s.front;
    GuardAhead(|t.ring|, t.writePos, t.readPos);
    FairWrite(t, w, []);
    var x := Written(t, w, []);
    NextWritten(t, w, [], d);
    FairRead(x, d);
    u := AfterRead(x, d);
    acts := SoloWrite(w, []) + SoloRead(d, Copied(x, d));
    FairConcat(t, SoloWrite(w, []), x, SoloRead(d, Copied(x, d)), u);
    JoinEmptyExposed(s, h, t, w, x, u);
  }

  /** A read by another handle leaves the front handle alone. */
  lemma FrontUntouched(x: State, d: nat)
    requires |x.ring| > 0 && d != x.front && x.front in x.readers
    ensures AfterRead(x, d).Front() == x.Front() && AfterRead(x, d).Active(x.front) == x.Active(x.front)
  {
  }

  lemma JoinEmptyExposed(s: State, h: nat, t: State, w: nat, x: State, u: State)
    requires SizesOk(s) && Fifo(s) && Aligned(s) && Early(s) && Joined(s, h, t) && Pending(s) == []
    requires s.readPos == s.writePos && t.Pc(w).Idle?
    requires x == Written(t, w, []) && u == AfterRead(x, s.front)
    requires x.Handle(s.front).cursor == s.readPos && LengthAt(x, s.front) == 0
    ensures Exposed(u, w)
  {
    assert x.Front() == t.Handle(h) && x.Active(h) && x.front == h;
    FrontUntouched(x, s.front);
    assert u.published == s.published + [[]];
    OneToCome(s, u);
    EightMore(s, u);
  }

  lemma EightMore(s: State, u: State)
    requires Aligned(s) && Early(s) && s.readPos == s.writePos
    requires u.writePos == s.writePos + Entry(0) && u.readPos == s.readPos + Entry(0)
    ensures u.writePos % ENTRY_ALIGN == 0 && s.readPos < u.writePos <= u.readPos && u.readPos + U32 < U64
  {
  }

  lemma OneToCome(s: State, u: State)
    requires Fifo(s) && Pending(s) == [] && u.Front().delivered == [] && u.published == s.published + [[]]
    requires u.Front().start == s.Front().start + |s.Front().delivered|
    ensures Fifo(u) && Pending(u) == [[]]
  {
  }

  lemma JoinedExposed(s: State, h: nat, t: State, w: nat, u: State)
    requires Inv(s) && Aligned(s) && Early(s) && Joined(s, h, t) && t.Pc(w).Idle? && Pending(s) != []
    requires OnlyRead(t, u, s.front) && u.readPos == u.writePos
    ensures Exposed(u, w)
  {
    assert u.Front() == t.Handle(h);
    assert Pending(u) == Pending(s);
  }

  // ---- the exact condition ----

  /** Whatever happens next under the rules, the reader of the ring gets what is published. */
  ghost predicate AlwaysServes(t: State)
    requires |t.ring| > 0
  {
    forall acts | Orderly(t, acts) && Roomy(t, acts) && Exec(t, acts).Some? :: Fifo(Exec(t, acts).value)
  }

  /** What a claimant could look at: the ring has no owner although its creator is there,
      or the claimant's own process owns it. */
  predicate Contested(s: State, p: nat) {
    (s.ownerPid == 0 && s.Active(s.front)) || s.ownerPid == p
  }

  lemma {:induction false} UncontestedServes(s: State, h: nat, p: nat)
    requires Inv(s) && Claims(s, h, p).Some? && !Contested(s, p)
    ensures AlwaysServes(Claims(s, h, p).value)
  {
    var t := Claims(s, h, p).value;
    assert OrderlyStep(s, Claim(h, p));
    ClaimKeeps(s, h, p, t);
    forall acts | Orderly(t, acts) && Roomy(t, acts) && Exec(t, acts).Some?
      ensures Fifo(Exec(t, acts).value)
    {
      FifoOverRuns(t, acts);
    }
  }

  lemma {:induction false} ContestedExposes(s: State, h: nat, p: nat) returns (w: nat, acts: seq<Action>, u: State)
    requires Inv(s) && Aligned(s) && Early(s) && Claims(s, h, p).Some? && Contested(s, p)
    ensures Fair(Claims(s, h, p).value, acts, u) && Exposed(u, w)
  {
    var t := Claims(s, h, p).value;
    w := FreshWriter(t.writers.Keys);
    if Resets(s, p) {
      assert t.Handle(s.front) == s.Front();
      acts, u := ResetExposes(s, h, p, t, w);
    } else {
      assert s.Active(s.front);
      acts, u := JoinExposes(s, h, t, w);
    }
  }

  /** A claim endangers the queue exactly when it is contested: otherwise every run from it
      that keeps the rules is FIFO for the reader of the ring, and if it is, some such run
      is not. */
  lemma {:induction false} TakeoverSafeIff(s: State, h: nat, p: nat)
    requires Inv(s) && Aligned(s) && Early(s) && Claims(s, h, p).Some?
    ensures AlwaysServes(Claims(s, h, p).value) <==> !Contested(s, p)
  {
    var t := Claims(s, h, p).value;
    if Contested(s, p) {
      var w, first, u := ContestedExposes(s, h, p);
      var rest, v := ExposedBreaks(u, w);
      FairConcat(t, first, u, rest, v);
      assert !Fifo(Exec(t, first + rest).value);
    } else {
      UncontestedServes(s, h, p);
    }
  }

  /** The same for every state a run from creation can reach under the rules. */
  lemma {:induction false} TakeoverFromCreation(ring: seq<byte>, creator: nat, max: nat, acts: seq<Action>, h: nat, p: nat)
    requires 1024 <= |ring| < U32 && |ring| % ENTRY_ALIGN == 0 && max <= |ring|
    requires Orderly(Created(ring, creator, max), acts) && Roomy(Created(ring, creator, max), acts)
    requires Exec(Created(ring, creator, max), acts).Some?
    ensures var s := Exec(Created(ring, creator, max), acts).value;
            Early(s) && Claims(s, h, p).Some? ==> (AlwaysServes(Claims(s, h, p).value) <==> !Contested(s, p))
  {
    var c := Created(ring, creator, max);
    CreatedInv(ring, creator, max);
    FifoOverRuns(c, acts);
    AlignedOverRuns(c, acts);
    var s := Exec(c, acts).value;
    if Early(s) && Claims(s, h, p).Some? {
      TakeoverSafeIff(s, h, p);
    }
  }

  // ---- runs with an owner ----

  /** No process claims a ring that it owns already. */
  predicate NoOwnClaims(s: State, acts: seq<Action>)
    requires |s.ring| > 0
    decreases |acts|
  {
    acts != [] ==>
      && (acts[0].Claim? ==> acts[0].p != s.ownerPid)
      && (Next(s, acts[0]).Some? ==> NoOwnClaims(Next(s, acts[0]).value, acts[1..]))
  }

  /** Once the ring has an owner, takeovers cannot go wrong unless the owner itself opens
      the ring again: every other run with room is FIFO, whoever claims and dies. */
  lemma {:induction false} OwnedRunsServe(s: State, acts: seq<Action>)
    requires Inv(s) && s.ownerPid != 0 && NoOwnClaims(s, acts) && Roomy(s, acts) && Exec(s, acts).Some?
    ensures Orderly(s, acts) && Fifo(Exec(s, acts).value)
    decreases |acts|
  {
    if acts != [] {
      var t := Next(s, acts[0]).value;
      OwnedStep(s, acts[0]);
      StepKeeps(s, acts[0], t);
      OwnedRunsServe(t, acts[1..]);
    }
  }

  lemma OwnedStep(s: State, a: Action)
    requires Inv(s) && s.ownerPid != 0 && Next(s, a).Some? && (a.Claim? ==> a.p != s.ownerPid)
    ensures OrderlyStep(s, a) && Next(s, a).value.ownerPid != 0
  {
    if IsRead(a) {
      assert Next(s, a) == Reads(s, a);
    } else if IsWrite(a) {
      assert Next(s, a) == Writes(s, a);
    }
  }
}
