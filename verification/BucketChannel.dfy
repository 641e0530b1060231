/** The receiving thread of the transport: what reaches OnDataReceived. */
module BucketChannel {
  import opened Bytes
  import opened Wrappers
  import opened Ring
  import opened BucketProtocol
  import opened BucketSegments

  /** OpenInputChannel clamps what FastDDS asks for to the configured maximum, and the
      transport's init refuses a segment smaller than that maximum. */
  function EffectiveMax(maxMsgSize: nat, maxMessageSize: nat): (max: nat)
    ensures max <= maxMessageSize && max <= maxMsgSize && (max == maxMsgSize || max == maxMessageSize)
  {
    if maxMsgSize < maxMessageSize then maxMsgSize else maxMessageSize
  }

  /** The messages that are not longer than max, in order. */
  function Fitting(ms: seq<Message>, max: nat): seq<Message> {
    if ms == [] then []
    else (if |ms[0]| <= max then [ms[0]] else []) + Fitting(ms[1..], max)
  }

  /** What run() hands on: deliveries whose reported length fits the buffer. */
  function Calls(ds: seq<Delivery>, max: nat): seq<seq<byte>> {
    if ds == [] then []
    else (if ds[0].len > max then [] else [ds[0].data]) + Calls(ds[1..], max)
  }

  lemma {:induction false} CallsOfSeen(ds: seq<Delivery>, ms: seq<Message>, max: nat)
    requires |ds| == |ms| && forall i | 0 <= i < |ds| :: ds[i] == Seen(ms[i], max)
    ensures Calls(ds, max) == Fitting(ms, max)
  {
    if ds != [] {
      assert ds[0] == Seen(ms[0], max);
      CallsOfSeen(ds[1..], ms[1..], max);
    }
  }

  lemma {:induction false} CallsOfFifo(t: State)
    requires Fifo(t) && t.Front().start == 0
    ensures var delivered := t.Front().delivered;
            && |delivered| <= |t.published|
            && Calls(delivered, t.max) == Fitting(t.published[..|delivered|], t.max)
  {
    var delivered := t.Front().delivered;
    var ms := t.published[..|delivered|];
    forall i | 0 <= i < |delivered| ensures delivered[i] == Seen(ms[i], t.max) {
      assert delivered[i] == Seen(t.published[t.Front().start + i], t.max);
    }
    CallsOfSeen(delivered, ms, t.max);
  }

  /** Over every orderly run with room, OnDataReceived gets exactly the published
      messages that fit, in order and intact; a longer one is consumed and leaves no
      trace in the ones behind it. */
  lemma {:induction false} ReceiverGetsFittingPrefix(s: State, acts: seq<Action>)
    requires Inv(s) && Orderly(s, acts) && Roomy(s, acts) && Exec(s, acts).Some?
    ensures var t := Exec(s, acts).value;
            var delivered := t.Front().delivered;
            && |delivered| <= |t.published|
            && Calls(delivered, t.max) == Fitting(t.published[..|delivered|], t.max)
  {
    FifoOverRuns(s, acts);
    CallsOfFifo(Exec(s, acts).value);
  }

  /** One turn of run(): a failed read and an oversized message both yield nothing,
      but only the failed read leaves the queue as it is. */
  method Turn(segment: BucketSegment, buf: array<byte>, max: nat) returns (calls: seq<seq<byte>>)
    requires segment.Valid() && max <= segment.capacity && segment.magicOk
    requires max == buf.Length && buf != segment.ring
    requires segment.View().Some? && segment.writePos < segment.cursor + U64
    modifies segment`writePos, segment`cursor, segment`readPos, segment`drainWord, segment.ring, buf
    ensures segment.cursor >= old(segment.cursor) && segment.writePos == old(segment.writePos)
    ensures var queue := old(segment.View()).value;
            && calls == (if queue != [] && |queue[0]| <= max then [queue[0]] else [])
            && calls == Fitting(if queue == [] then [] else queue[..1], max)
            && segment.View() == Some(if queue == [] then [] else queue[1..])
  {
    calls := [];
    ghost var queue := segment.View().value;
    var ok, len := segment.Read(buf, max, []);
    if ok {
      assert queue[..1] == [queue[0]] && Fitting([queue[0]][1..], max) == [];
      if len <= max {
        assert buf[..len] == queue[0];
        calls := [buf[..len]];
      }
    }
  }

  lemma ThreeParts(a: seq<Message>, b: seq<Message>, c: seq<Message>)
    ensures a + (b + c) == (a + b) + c
  {
  }

  lemma {:induction false} FittingConcat(a: seq<Message>, b: seq<Message>, max: nat)
    ensures Fitting(a + b, max) == Fitting(a, max) + Fitting(b, max)
  {
    if a == [] {
      assert a + b == b;
    } else {
      assert (a + b)[0] == a[0] && (a + b)[1..] == a[1..] + b;
      FittingConcat(a[1..], b, max);
      ThreeParts(if |a[0]| <= max then [a[0]] else [], Fitting(a[1..], max), Fitting(b, max));
    }
  }

  /** How far a number of turns gets down a queue. */
  function Taken(queue: seq<Message>, turns: nat): (k: nat)
    ensures k <= |queue|
  {
    if turns < |queue| then turns else |queue|
  }

  lemma {:induction false} OneMoreTurn(queue: seq<Message>, turn: nat, max: nat)
    ensures var rest := queue[Taken(queue, turn)..];
            && Fitting(queue[..Taken(queue, turn + 1)], max)
               == Fitting(queue[..Taken(queue, turn)], max) + Fitting(if rest == [] then [] else rest[..1], max)
            && queue[Taken(queue, turn + 1)..] == if rest == [] then [] else rest[1..]
  {
    if turn < |queue| {
      FittingConcat(queue[..turn], [queue[turn]], max);
      assert queue[..turn + 1] == queue[..turn] + [queue[turn]];
      assert queue[turn..][..1] == [queue[turn]];
    }
  }

  /** run() for a number of turns on an undisturbed segment. */
  method Run(segment: BucketSegment, max: nat, turns: nat) returns (calls: seq<seq<byte>>)
    requires segment.Valid() && max <= segment.capacity && segment.magicOk
    requires segment.View().Some? && segment.writePos < segment.cursor + U64
    modifies segment`writePos, segment`cursor, segment`readPos, segment`drainWord, segment.ring
    ensures var queue := old(segment.View()).value;
            && calls == Fitting(queue[..Taken(queue, turns)], max)
            && segment.View() == Some(queue[Taken(queue, turns)..])
  {
    var buf := new byte[max](_ => 0);
    calls := [];
    ghost var queue := segment.View().value;
    for turn := 0 to turns
      invariant segment.cursor >= old(segment.cursor) && segment.writePos == old(segment.writePos)
      invariant segment.View() == Some(queue[Taken(queue, turn)..])
      invariant calls == Fitting(queue[..Taken(queue, turn)], max)
    {
      OneMoreTurn(queue, turn, max);
      var more := Turn(segment, buf, max);
      calls := calls + more;
    }
  }
}
