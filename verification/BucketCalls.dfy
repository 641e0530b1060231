/** The segment's Write and Read as runs of the protocol: whatever other processes do while
    a call waits, the call and they together are one run, and the handle then shows the
    state that run ends in. */
module BucketCalls {
  import opened Bytes
  import opened Wrappers
  import opened Memory
  import opened Ring
  import opened BucketSegments
  import opened BucketProtocol
  import opened BucketRuns

  /** The shared memory of the handle is that of the protocol state. */
  ghost predicate Shows(segment: BucketSegment, s: State)
    requires segment.Valid()
    reads segment, segment.ring
  {
    segment.Now() == SharedOf(s)
  }

  function SharedOf(s: State): Arrival {
    Arrival(s.ring, s.writePos, s.readPos)
  }

  // ---- who takes which steps of a run ----

  /** The steps of acts that who picks, in order. */
  function Of(acts: seq<Action>, who: Action -> bool): seq<Action> {
    if acts == [] then [] else (if who(acts[0]) then [acts[0]] else []) + Of(acts[1..], who)
  }

  function ByWriter(w: nat): Action -> bool {
    (a: Action) => IsWrite(a) && a.w == w
  }

  function NotByWriter(w: nat): Action -> bool {
    (a: Action) => !(IsWrite(a) && a.w == w)
  }

  function ByHandle(h: nat): Action -> bool {
    (a: Action) => IsRead(a) && a.h == h
  }

  function NotByHandle(h: nat): Action -> bool {
    (a: Action) => !(IsRead(a) && a.h == h)
  }

  function Flat(parts: seq<seq<Action>>): seq<Action> {
    if parts == [] then [] else parts[0] + Flat(parts[1..])
  }

  lemma {:induction false} OfConcat(a: seq<Action>, b: seq<Action>, who: Action -> bool)
    ensures Of(a + b, who) == Of(a, who) + Of(b, who)
  {
    if a == [] {
      assert a + b == b;
    } else {
      assert (a + b)[0] == a[0] && (a + b)[1..] == a[1..] + b;
      OfConcat(a[1..], b, who);
      Regroup(if who(a[0]) then [a[0]] else [], Of(a[1..], who), Of(b, who));
    }
  }

  lemma Regroup(a: seq<Action>, b: seq<Action>, c: seq<Action>)
    ensures a + (b + c) == (a + b) + c
  {
  }

  lemma {:induction false} OfThree(a: seq<Action>, b: seq<Action>, c: seq<Action>, who: Action -> bool)
    ensures Of(a + (b + c), who) == Of(a, who) + (Of(b, who) + Of(c, who))
  {
    OfConcat(b, c, who);
    OfConcat(a, b + c, who);
  }

  lemma {:induction false} OfAll(acts: seq<Action>, who: Action -> bool)
    requires forall a | a in acts :: who(a)
    ensures Of(acts, who) == acts
  {
    if acts != [] {
      assert acts[0] in acts;
      OfAll(acts[1..], who);
    }
  }

  lemma {:induction false} OfNone(acts: seq<Action>, who: Action -> bool)
    requires forall a | a in acts :: !who(a)
    ensures Of(acts, who) == []
  {
    if acts != [] {
      assert acts[0] in acts;
      OfNone(acts[1..], who);
    }
  }

  lemma FlatCons(part: seq<Action>, parts: seq<seq<Action>>, all: seq<seq<Action>>, k: nat)
    requires all != [] && all[0] == part && all[1..] == parts && k <= |parts|
    ensures Flat(all[..k + 1]) == part + Flat(parts[..k])
  {
    assert all[..k + 1][1..] == parts[..k];
  }

  // ---- a waiting writer ----

  /** None of these steps is taken by writer w. */
  predicate Others(w: nat, acts: seq<Action>) {
    forall a | a in acts && IsWrite(a) :: a.w != w
  }

  /** While w holds the lock, nobody else changes the ring or the write position. */
  ghost predicate Holding(s: State, w: nat, t: State) {
    && WritersOk(t) && t.lock == Held(w) && t.Pc(w) == s.Pc(w)
    && t.ring == s.ring && t.writePos == s.writePos && t.published == s.published
  }

  lemma HoldingStep(s: State, w: nat, a: Action, t: State)
    requires |s.ring| > 0 && WritersOk(s) && s.lock == Held(w) && Next(s, a) == Some(t)
    requires IsWrite(a) ==> a.w != w
    ensures Holding(s, w, t)
  {
    if IsRead(a) {
      ReadFrame(s, a, t);
      WritersSame(s, t);
    } else if IsWrite(a) {
      WriteFrame(s, a, t);
      LockMoves(s, a, t);
      OutsideFrame(s, a, t);
      WritersKeep(s, a, t);
    } else {
      HeldFrame(s, a, t);
      WritersSame(s, t);
    }
  }

  lemma WritersSame(s: State, t: State)
    requires WritersOk(s) && t.writers == s.writers && t.lock == s.lock && |t.ring| == |s.ring|
    ensures WritersOk(t) && forall w :: t.Pc(w) == s.Pc(w)
  {
    assert forall w :: t.Pc(w) == s.Pc(w);
  }

  /** While the lock is held nobody can claim. */
  lemma HeldFrame(s: State, a: Action, t: State)
    requires |s.ring| > 0 && s.lock.Held? && !IsRead(a) && !IsWrite(a) && Next(s, a) == Some(t)
    ensures a.Exits? && t == s.(gone := s.gone + {a.p})
  {
  }

  lemma {:induction false} HoldingRun(s: State, w: nat, acts: seq<Action>)
    requires |s.ring| > 0 && WritersOk(s) && s.lock == Held(w) && Others(w, acts) && Exec(s, acts).Some?
    ensures Holding(s, w, Exec(s, acts).value)
    decreases |acts|
  {
    if acts != [] {
      assert acts[0] in acts;
      var t := Next(s, acts[0]).value;
      HoldingStep(s, w, acts[0], t);
      HoldingRun(t, w, acts[1..]);
    }
  }

  /** The state after a test that failed. */
  function Refused(s: State, w: nat): State {
    s.Set(w, if s.Pc(w).Waiting? then Waiting(s.Pc(w).msg, true) else s.Pc(w))
  }

  /** others[k] is what everybody else does before the k-th wake-up of writer w, and leaves
      the read position drains[k]. */
  ghost predicate WritersWait(s: State, w: nat, drains: seq<nat>, others: seq<seq<Action>>)
    requires |s.ring| > 0
    decreases |drains|
  {
    && |drains| == |others|
    && (drains != [] && !DrainGuard(|s.ring|, s.writePos, s.readPos) ==>
          && Others(w, others[0]) && Exec(Refused(s, w), others[0]).Some?
          && var u := Exec(Refused(s, w), others[0]).value;
             u.readPos == drains[0] && WritersWait(u, w, drains[1..], others[1..]))
  }

  lemma RefusedKeeps(s: State, w: nat)
    requires |s.ring| > 0 && WritersOk(s) && s.lock == Held(w) && s.Pc(w).Waiting?
    requires !DrainGuard(|s.ring|, s.writePos, s.readPos)
    ensures var u := Refused(s, w);
            && Next(s, Check(w)) == Some(u) && WritersOk(u) && u.lock == Held(w)
            && u.Pc(w) == Waiting(s.Pc(w).msg, true)
  {
    WritersKeep(s, Check(w), Refused(s, w));
  }

  /** How many wake-ups the wait of a writer takes. */
  function Wakes(cap: nat, w: nat, r: nat, drains: seq<nat>): (k: nat)
    ensures k <= |drains|
    decreases |drains|
  {
    if DrainGuard(cap, w, r) || drains == [] then 0 else 1 + Wakes(cap, w, drains[0], drains[1..])
  }

  /** How many of its tests fail. */
  function Fails(cap: nat, w: nat, r: nat, drains: seq<nat>): (k: nat)
    decreases |drains|
  {
    if DrainGuard(cap, w, r) then 0 else if drains == [] then 1 else 1 + Fails(cap, w, drains[0], drains[1..])
  }

  lemma {:induction false} FailsAre(cap: nat, w: nat, r: nat, drains: seq<nat>)
    ensures var k := Wakes(cap, w, r, drains);
            Fails(cap, w, r, drains) == if DrainGuard(cap, w, DrainedAt(cap, w, r, drains)) then k else k + 1
    decreases |drains|
  {
    if !DrainGuard(cap, w, r) && drains != [] {
      FailsAre(cap, w, drains[0], drains[1..]);
    }
  }

  function Checks(w: nat, n: nat): (acts: seq<Action>)
    ensures |acts| == n && forall i | 0 <= i < n :: acts[i] == Check(w)
  {
    seq(n, _ => Check(w))
  }

  /** In acts, w only tests, tests times, and the others do exactly what others says up to
      its k-th wake-up. */
  ghost predicate WaitTrace(w: nat, others: seq<seq<Action>>, k: nat, tests: nat, acts: seq<Action>) {
    && k <= |others| && Of(acts, NotByWriter(w)) == Flat(others[..k]) && Of(acts, ByWriter(w)) == Checks(w, tests)
  }

  lemma OwnTest(w: nat)
    ensures Of([Check(w)], ByWriter(w)) == [Check(w)] && Of([Check(w)], NotByWriter(w)) == []
  {
    OfAll([Check(w)], ByWriter(w));
    OfNone([Check(w)], NotByWriter(w));
  }

  lemma OneTest(w: nat, others: seq<seq<Action>>)
    ensures WaitTrace(w, others, 0, 1, [Check(w)] + [])
  {
    OwnTest(w);
    assert [Check(w)] + [] == [Check(w)] == Checks(w, 1);
  }

  /** One failed test, then the others' steps before the next wake-up. */
  lemma {:induction false} WaitTraceMore(w: nat, others: seq<seq<Action>>, k: nat, tests: nat, rest: seq<Action>)
    requires others != [] && Others(w, others[0]) && WaitTrace(w, others[1..], k, tests, rest)
    ensures WaitTrace(w, others, k + 1, tests + 1, [Check(w)] + (others[0] + rest))
  {
    var first := others[0];
    OwnTest(w);
    OfAll(first, NotByWriter(w));
    OfNone(first, ByWriter(w));
    OfConcat(first, rest, NotByWriter(w));
    OfConcat(first, rest, ByWriter(w));
    OfConcat([Check(w)], first + rest, NotByWriter(w));
    OfConcat([Check(w)], first + rest, ByWriter(w));
    FlatCons(first, others[1..], others, k);
    assert Checks(w, tests + 1) == [Check(w)] + ([] + Checks(w, tests));
  }

  /** After a failed test the writer waits on, in a ring that nobody else writes to. */
  lemma {:induction false} NextWake(s: State, w: nat, drains: seq<nat>, others: seq<seq<Action>>)
    requires |s.ring| > 0 && WritersOk(s) && s.lock == Held(w) && s.Pc(w).Waiting?
    requires WritersWait(s, w, drains, others) && drains != [] && !DrainGuard(|s.ring|, s.writePos, s.readPos)
    ensures Exec(Refused(s, w), others[0]).Some? && Others(w, others[0])
    ensures var u := Exec(Refused(s, w), others[0]).value;
            && WritersOk(u) && u.lock == Held(w) && u.Pc(w).Waiting? && u.Pc(w).msg == s.Pc(w).msg
            && u.ring == s.ring && u.writePos == s.writePos && u.published == s.published
            && u.readPos == drains[0] && WritersWait(u, w, drains[1..], others[1..])
  {
    RefusedKeeps(s, w);
    HoldingRun(Refused(s, w), w, others[0]);
  }

  lemma {:induction false} WaitOn(s: State, w: nat, r: State, first: seq<Action>, u: State, rest: seq<Action>, t: State)
    requires |s.ring| > 0 && |r.ring| > 0 && |u.ring| > 0 && Next(s, Check(w)) == Some(r)
    requires Exec(r, first) == Some(u) && Exec(u, rest) == Some(t)
    ensures Exec(s, [Check(w)] + (first + rest)) == Some(t)
  {
    ExecConcat(r, first, rest);
    ExecStep(s, Check(w), first + rest);
  }

  /** The wait of a writer, as far as the last test but for the passing one: a failed test
      before each wake-up, and what the others do before it. */
  function WaitActs(cap: nat, pos: nat, r: nat, w: nat, drains: seq<nat>, others: seq<seq<Action>>): seq<Action>
    requires |drains| == |others|
    decreases |drains|
  {
    if DrainGuard(cap, pos, r) then []
    else if drains == [] then [Check(w)] + []
    else [Check(w)] + (others[0] + WaitActs(cap, pos, drains[0], w, drains[1..], others[1..]))
  }

  lemma {:induction false} WaitActsTrace(s: State, w: nat, drains: seq<nat>, others: seq<seq<Action>>)
    requires |s.ring| > 0 && WritersOk(s) && s.lock == Held(w) && s.Pc(w).Waiting?
    requires WritersWait(s, w, drains, others)
    ensures WaitTrace(w, others, Wakes(|s.ring|, s.writePos, s.readPos, drains),
                      Fails(|s.ring|, s.writePos, s.readPos, drains),
                      WaitActs(|s.ring|, s.writePos, s.readPos, w, drains, others))
    decreases |drains|
  {
    if !DrainGuard(|s.ring|, s.writePos, s.readPos) {
      if drains == [] {
        OneTest(w, others);
      } else {
        NextWake(s, w, drains, others);
        WaitActsTrace(Exec(Refused(s, w), others[0]).value, w, drains[1..], others[1..]);
        var k := Wakes(|s.ring|, s.writePos, drains[0], drains[1..]);
        var tests := Fails(|s.ring|, s.writePos, drains[0], drains[1..]);
        var rest := WaitActs(|s.ring|, s.writePos, drains[0], w, drains[1..], others[1..]);
        assert Wakes(|s.ring|, s.writePos, s.readPos, drains) == k + 1;
        assert Fails(|s.ring|, s.writePos, s.readPos, drains) == tests + 1;
        WaitTraceMore(w, others, k, tests, rest);
      }
    }
  }

  lemma {:induction false} WaitRun(s: State, w: nat, drains: seq<nat>, others: seq<seq<Action>>) returns (t: State)
    requires |s.ring| > 0 && WritersOk(s) && s.lock == Held(w) && s.Pc(w).Waiting?
    requires WritersWait(s, w, drains, others)
    ensures Exec(s, WaitActs(|s.ring|, s.writePos, s.readPos, w, drains, others)) == Some(t)
    ensures t.readPos == DrainedAt(|s.ring|, s.writePos, s.readPos, drains)
    ensures WritersOk(t) && t.lock == Held(w) && t.Pc(w).Waiting? && t.Pc(w).msg == s.Pc(w).msg
    ensures t.ring == s.ring && t.writePos == s.writePos && t.published == s.published
    ensures !DrainGuard(|s.ring|, s.writePos, t.readPos) ==> t.Pc(w).failed
    decreases |drains|
  {
    if DrainGuard(|s.ring|, s.writePos, s.readPos) {
      t := s;
    } else {
      RefusedKeeps(s, w);
      if drains == [] {
        t := Refused(s, w);
        ExecStep(s, Check(w), []);
      } else {
        NextWake(s, w, drains, others);
        var u := Exec(Refused(s, w), others[0]).value;
        t := WaitRun(u, w, drains[1..], others[1..]);
        WaitOn(s, w, Refused(s, w), others[0], u,
               WaitActs(|s.ring|, s.writePos, drains[0], w, drains[1..], others[1..]), t);
      }
    }
  }

  /** The own steps of a call of Write whose wait takes k wake-ups. */
  function WriteSteps(w: nat, m: Message, k: nat, ok: bool): seq<Action> {
    [Call(w, m), Acquire(w)] + (Checks(w, k) + if ok then FinishWrite(w, m) else [Check(w), Expire(w)])
  }

  /** acts interleaves exactly the call's own steps and what others says of its wake-ups. */
  ghost predicate WriteTrace(s: State, w: nat, m: Message, drains: seq<nat>, others: seq<seq<Action>>,
                             acts: seq<Action>, ok: bool)
  {
    var k := Wakes(|s.ring|, s.writePos, s.readPos, drains);
    && k <= |others| && Of(acts, NotByWriter(w)) == Flat(others[..k])
    && Of(acts, ByWriter(w)) == WriteSteps(w, m, k, ok)
  }

  /** What Write does once its wait has ended, but for a failed test. */
  function Leave(w: nat, m: Message, ok: bool): seq<Action> {
    if ok then FinishWrite(w, m) else [Expire(w)] + []
  }

  /** The steps around the wait. */
  function Around(w: nat, m: Message, wait: seq<Action>, ok: bool): seq<Action> {
    [Call(w, m), Acquire(w)] + (wait + Leave(w, m, ok))
  }

  lemma {:induction false} AroundOthers(w: nat, m: Message, wait: seq<Action>, ok: bool)
    ensures Of(Around(w, m, wait, ok), NotByWriter(w)) == Of(wait, NotByWriter(w))
  {
    var first, last := [Call(w, m), Acquire(w)], Leave(w, m, ok);
    OfThree(first, wait, last, NotByWriter(w));
    OfNone(first, NotByWriter(w));
    OfNone(last, NotByWriter(w));
  }

  lemma {:induction false} AroundOwn(w: nat, m: Message, wait: seq<Action>, k: nat, ok: bool)
    requires Of(wait, ByWriter(w)) == Checks(w, if ok then k else k + 1)
    ensures Of(Around(w, m, wait, ok), ByWriter(w)) == WriteSteps(w, m, k, ok)
  {
    var first, last := [Call(w, m), Acquire(w)], Leave(w, m, ok);
    OfThree(first, wait, last, ByWriter(w));
    OfAll(first, ByWriter(w));
    OfAll(last, ByWriter(w));
    if !ok {
      LastTest(w, k);
    }
  }

  lemma LastTest(w: nat, k: nat)
    ensures Checks(w, k + 1) + ([Expire(w)] + []) == Checks(w, k) + [Check(w), Expire(w)]
  {
  }

  /** What a call of Write by w leaves: the record published, or nothing. */
  ghost predicate WriteDone(s: State, w: nat, m: Message, r: nat, t: State, ok: bool)
    requires |s.ring| > 0
  {
    && t.readPos == r && ok == DrainGuard(|s.ring|, s.writePos, r) && t.Pc(w).Idle? && t.lock == Free
    && t.ring == (if ok then Deposit(s.ring, s.writePos, Record(m)) else s.ring)
    && t.writePos == (if ok then s.writePos + Entry(|m|) else s.writePos)
    && t.published == (if ok then s.published + [m] else s.published)
  }

  /** A whole call of Write, with whatever happens while it waits, is a run: the call's own
      steps, and between its tests what the others do before each wake-up. */
  lemma {:induction false} WriteIsRun(s: State, w: nat, m: Message, drains: seq<nat>, others: seq<seq<Action>>)
    returns (acts: seq<Action>, t: State, ok: bool)
    requires |s.ring| > 0 && WritersOk(s) && s.Pc(w).Idle? && !s.lock.Held? && Entry(|m|) <= |s.ring|
    requires WritersWait(Entered(s, w, m), w, drains, others)
    ensures Exec(s, acts) == Some(t) && WriteTrace(s, w, m, drains, others, acts, ok)
    ensures WriteDone(s, w, m, DrainedAt(|s.ring|, s.writePos, s.readPos, drains), t, ok)
  {
    EnteredOk(s, w, m);
    var wait := WaitActs(|s.ring|, s.writePos, s.readPos, w, drains, others);
    var u := WaitRun(Entered(s, w, m), w, drains, others);
    WaitActsTrace(Entered(s, w, m), w, drains, others);
    ok := DrainGuard(|s.ring|, s.writePos, u.readPos);
    t := LeaveRun(u, w, m, ok);
    acts := Around(w, m, wait, ok);
    AroundRun(s, w, m, wait, u, ok, t);
    CallTrace(s, w, m, drains, others, wait, ok);
    SameDone(s, u, w, m, t, ok);
  }

  lemma {:induction false} CallTrace(s: State, w: nat, m: Message, drains: seq<nat>, others: seq<seq<Action>>, wait: seq<Action>, ok: bool)
    requires WaitTrace(w, others, Wakes(|s.ring|, s.writePos, s.readPos, drains),
                       Fails(|s.ring|, s.writePos, s.readPos, drains), wait)
    requires ok == DrainGuard(|s.ring|, s.writePos, DrainedAt(|s.ring|, s.writePos, s.readPos, drains))
    ensures WriteTrace(s, w, m, drains, others, Around(w, m, wait, ok), ok)
  {
    FailsAre(|s.ring|, s.writePos, s.readPos, drains);
    AroundOthers(w, m, wait, ok);
    AroundOwn(w, m, wait, Wakes(|s.ring|, s.writePos, s.readPos, drains), ok);
  }

  lemma SameDone(s: State, u: State, w: nat, m: Message, t: State, ok: bool)
    requires |s.ring| > 0 && |u.ring| > 0 && WriteDone(u, w, m, u.readPos, t, ok)
    requires u.ring == s.ring && u.writePos == s.writePos && u.published == s.published
    ensures WriteDone(s, w, m, u.readPos, t, ok)
  {
  }

  lemma {:induction false} AroundRun(s: State, w: nat, m: Message, wait: seq<Action>, u: State, ok: bool, t: State)
    requires |s.ring| > 0 && |u.ring| > 0 && Entry(|m|) <= |s.ring| && s.Pc(w).Idle? && !s.lock.Held?
    requires Exec(Entered(s, w, m), wait) == Some(u) && Exec(u, Leave(w, m, ok)) == Some(t)
    ensures Exec(s, Around(w, m, wait, ok)) == Some(t)
  {
    EnterRun(s, w, m);
    ExecConcat(Entered(s, w, m), wait, Leave(w, m, ok));
    ExecConcat(s, [Call(w, m), Acquire(w)], wait + Leave(w, m, ok));
  }

  /** The end of the call, once the wait is over. */
  lemma {:induction false} LeaveRun(u: State, w: nat, m: Message, ok: bool) returns (t: State)
    requires |u.ring| > 0 && u.lock == Held(w) && u.Pc(w).Waiting? && u.Pc(w).msg == m && Entry(|m|) <= |u.ring|
    requires ok == DrainGuard(|u.ring|, u.writePos, u.readPos) && (!ok ==> u.Pc(w).failed)
    ensures Exec(u, Leave(w, m, ok)) == Some(t)
    ensures WriteDone(u, w, m, u.readPos, t, ok)
  {
    if ok {
      FinishRun(u, w, m);
      t := Written(u, w, m);
    } else {
      t := u.Set(w, Idle).(lock := Free);
      ExecStep(u, Expire(w), []);
    }
  }

  lemma EnteredOk(s: State, w: nat, m: Message)
    requires |s.ring| > 0 && WritersOk(s) && s.Pc(w).Idle? && !s.lock.Held? && Entry(|m|) <= |s.ring|
    ensures WritersOk(Entered(s, w, m))
  {
    var u := s.Set(w, Wanting(m));
    WritersKeep(s, Call(w, m), u);
    assert u.writers[w := Waiting(m, false)] == s.writers[w := Waiting(m, false)];
    WritersKeep(u, Acquire(w), Entered(s, w, m));
  }

  /** Write on a segment that shows s ends showing the state of that run. */
  method WriteCall(segment: BucketSegment, data: seq<byte>, drains: seq<nat>,
                   ghost s: State, ghost w: nat, ghost others: seq<seq<Action>>)
    returns (ok: bool, ghost acts: seq<Action>, ghost t: State)
    requires segment.Valid() && segment.magicOk && Shows(segment, s) && |data| < U32
    requires WritersOk(s) && s.Pc(w).Idle? && !s.lock.Held? && Entry(|data|) <= segment.capacity
    requires WritersWait(Entered(s, w, data), w, drains, others)
    modifies segment`writePos, segment`readPos, segment`wakeWord, segment.ring
    ensures Exec(s, acts) == Some(t) && WriteTrace(s, w, data, drains, others, acts, ok)
    ensures Shows(segment, t) && t.published == if ok then s.published + [data] else s.published
  {
    ok := segment.Write(data, drains);
    ghost var done;
    acts, t, done := WriteIsRun(s, w, data, drains, others);
  }

  // ---- a waiting reader ----

  /** None of these steps is taken by handle h, and none ends its process. */
  predicate Elsewhere(h: nat, pid: nat, acts: seq<Action>) {
    forall a | a in acts :: (IsRead(a) ==> a.h != h) && (a.Exits? ==> a.p != pid)
  }

  lemma {:induction false} HandleStays(s: State, h: nat, acts: seq<Action>)
    requires |s.ring| > 0 && s.Active(h) && Elsewhere(h, s.Handle(h).pid, acts) && Exec(s, acts).Some?
    ensures Exec(s, acts).value.Active(h) && Exec(s, acts).value.Handle(h) == s.Handle(h)
    ensures Exec(s, acts).value.max == s.max
    decreases |acts|
  {
    if acts != [] {
      var a := acts[0];
      assert a in acts;
      var t := Next(s, a).value;
      HandleStep(s, h, a, t);
      HandleStays(t, h, acts[1..]);
    }
  }

  lemma HandleStep(s: State, h: nat, a: Action, t: State)
    requires |s.ring| > 0 && s.Active(h) && Next(s, a) == Some(t)
    requires (IsRead(a) ==> a.h != h) && (a.Exits? ==> a.p != s.Handle(h).pid)
    ensures t.Active(h) && t.Handle(h) == s.Handle(h) && t.max == s.max
  {
    if IsRead(a) {
      assert Next(s, a) == Reads(s, a);
    } else if IsWrite(a) {
      assert Next(s, a) == Writes(s, a);
    }
  }

  /** others[k] is what everybody else does before the k-th wake-up of handle h. */
  ghost predicate ReadersWait(s: State, h: nat, arrivals: seq<Arrival>, others: seq<seq<Action>>)
    requires |s.ring| > 0
    decreases |arrivals|
  {
    && |arrivals| == |others|
    && (arrivals != [] && Sub64(s.writePos, s.Handle(h).cursor) < HEADER ==>
          && Elsewhere(h, s.Handle(h).pid, others[0]) && Exec(s, others[0]).Some?
          && var u := Exec(s, others[0]).value;
             SharedOf(u) == arrivals[0] && ReadersWait(u, h, arrivals[1..], others[1..]))
  }

  /** How many wake-ups the wait of a reader takes. */
  function ReadWakes(cursor: nat, now: Arrival, arrivals: seq<Arrival>): (k: nat)
    ensures k <= |arrivals|
    decreases |arrivals|
  {
    if Sub64(now.writePos, cursor) >= HEADER || arrivals == [] then 0
    else 1 + ReadWakes(cursor, arrivals[0], arrivals[1..])
  }

  /** acts interleaves h's own steps and what others says of its first k wake-ups. */
  ghost predicate ReadTrace(h: nat, others: seq<seq<Action>>, k: nat, own: seq<Action>, acts: seq<Action>) {
    && k <= |others| && Of(acts, NotByHandle(h)) == Flat(others[..k]) && Of(acts, ByHandle(h)) == own
  }

  lemma {:induction false} ReadTraceMore(h: nat, pid: nat, others: seq<seq<Action>>, k: nat, rest: seq<Action>)
    requires others != [] && Elsewhere(h, pid, others[0]) && ReadTrace(h, others[1..], k, [], rest)
    ensures ReadTrace(h, others, k + 1, [], others[0] + rest)
  {
    var first := others[0];
    OfAll(first, NotByHandle(h));
    OfNone(first, ByHandle(h));
    OfConcat(first, rest, NotByHandle(h));
    OfConcat(first, rest, ByHandle(h));
    FlatCons(first, others[1..], others, k);
  }

  lemma {:induction false} ReadTraceWhole(h: nat, others: seq<seq<Action>>, k: nat, wait: seq<Action>, own: seq<Action>)
    requires ReadTrace(h, others, k, [], wait) && forall a | a in own :: IsRead(a) && a.h == h
    ensures ReadTrace(h, others, k, own, wait + own)
  {
    OfAll(own, ByHandle(h));
    OfNone(own, NotByHandle(h));
    OfConcat(wait, own, NotByHandle(h));
    OfConcat(wait, own, ByHandle(h));
    assert Flat(others[..k]) + [] == Flat(others[..k]) && [] + own == own;
  }

  lemma {:induction false} ReadWaitRun(s: State, h: nat, arrivals: seq<Arrival>, others: seq<seq<Action>>)
    returns (acts: seq<Action>, t: State)
    requires |s.ring| > 0 && s.Active(h) && ReadersWait(s, h, arrivals, others)
    ensures Exec(s, acts) == Some(t) && SharedOf(t) == WokenAt(s.Handle(h).cursor, SharedOf(s), arrivals)
    ensures t.Active(h) && t.Handle(h) == s.Handle(h) && t.max == s.max
    ensures ReadTrace(h, others, ReadWakes(s.Handle(h).cursor, SharedOf(s), arrivals), [], acts)
    decreases |arrivals|
  {
    if Sub64(s.writePos, s.Handle(h).cursor) >= HEADER || arrivals == [] {
      acts, t := [], s;
    } else {
      HandleStays(s, h, others[0]);
      var u := Exec(s, others[0]).value;
      var rest;
      rest, t := ReadWaitRun(u, h, arrivals[1..], others[1..]);
      acts := others[0] + rest;
      ExecConcat(s, others[0], rest);
      ReadTraceMore(h, s.Handle(h).pid, others, ReadWakes(s.Handle(h).cursor, SharedOf(u), arrivals[1..]), rest);
    }
  }

  /** Looking at an entry that does not end by the write position. */
  function GiveUp(h: nat): seq<Action> {
    [Look(h)] + (Peeks(h, HEADER) + [Abort(h)])
  }

  lemma {:induction false} PeekHeader(s: State, h: nat, snap: nat, k: nat)
    requires |s.ring| > 0 && s.Active(h) && k <= HEADER
    ensures Exec(Midway(s, h, snap, k), Peeks(h, HEADER - k)) == Some(Midway(s, h, snap, HEADER))
    decreases HEADER - k
  {
    if k < HEADER {
      FetchPrefix(s.ring, s.Handle(h).cursor, HEADER, k);
      var m, next := Midway(s, h, snap, k), Midway(s, h, snap, k + 1);
      assert m.Handle(h) == s.Handle(h).(pc := Reading(snap, Fetch(s.ring, s.Handle(h).cursor, k)));
      assert s.readers[h := m.Handle(h)][h := next.Handle(h)] == s.readers[h := next.Handle(h)];
      assert Next(m, Peek(h)) == Some(next);
      assert Peeks(h, HEADER - k)[1..] == Peeks(h, HEADER - k - 1);
      PeekHeader(s, h, snap, k + 1);
    }
  }

  lemma {:induction false} GiveUpRun(s: State, h: nat)
    requires |s.ring| > 0 && s.Active(h) && s.Handle(h).pc.Resting?
    requires HEADER <= Sub64(s.writePos, s.Handle(h).cursor) < Entry(LengthAt(s, h))
    ensures Exec(s, GiveUp(h)) == Some(s)
  {
    var start, m := Midway(s, h, s.writePos, 0), Midway(s, h, s.writePos, HEADER);
    assert Fetch(s.ring, s.Handle(h).cursor, 0) == [];
    ExecStep(s, Look(h), Peeks(h, HEADER) + [Abort(h)]);
    assert Next(s, Look(h)) == Some(start);
    PeekHeader(s, h, s.writePos, 0);
    ExecConcat(start, Peeks(h, HEADER), [Abort(h)]);
    AbortRun(s, h, m);
  }

  lemma {:induction false} AbortRun(s: State, h: nat, m: State)
    requires |s.ring| > 0 && s.Active(h) && s.Handle(h).pc.Resting? && m == Midway(s, h, s.writePos, HEADER)
    requires Sub64(s.writePos, s.Handle(h).cursor) < Entry(LengthAt(s, h))
    ensures Exec(m, [Abort(h)]) == Some(s)
  {
    var got := Fetch(s.ring, s.Handle(h).cursor, HEADER);
    assert got[..HEADER] == got;
    assert m.Handle(h) == s.Handle(h).(pc := Reading(s.writePos, got));
    assert s.readers[h := m.Handle(h)][h := s.Handle(h)] == s.readers;
    assert Next(m, Abort(h)) == Some(s);
    assert [Abort(h)] == [Abort(h)] + [];
    ExecStep(m, Abort(h), []);
  }

  /** What a call of Read by h leaves, if the wait ends in u. */
  ghost predicate ReadDone(u: State, h: nat, t: State, ok: bool)
    requires |u.ring| > 0
  {
    var far := Sub64(u.writePos, u.Handle(h).cursor);
    && ok == (far >= HEADER && far >= Entry(LengthAt(u, h)))
    && t == if ok then AfterRead(u, h) else u
  }

  /** The own steps of a call of Read whose wait ends in u. */
  function ReadSteps(u: State, h: nat): seq<Action>
    requires |u.ring| > 0
  {
    var far := Sub64(u.writePos, u.Handle(h).cursor);
    if far < HEADER then [] else if far >= Entry(LengthAt(u, h)) then SoloRead(h, Copied(u, h)) else GiveUp(h)
  }

  lemma ReadStepsOwn(u: State, h: nat)
    requires |u.ring| > 0
    ensures forall a | a in ReadSteps(u, h) :: IsRead(a) && a.h == h
  {
  }

  lemma {:induction false} ReadStepsRun(u: State, h: nat)
    requires |u.ring| > 0 && u.Active(h) && u.Handle(h).pc.Resting?
    ensures var far := Sub64(u.writePos, u.Handle(h).cursor);
            var ok := far >= HEADER && far >= Entry(LengthAt(u, h));
            Exec(u, ReadSteps(u, h)) == Some(if ok then AfterRead(u, h) else u)
  {
    var far := Sub64(u.writePos, u.Handle(h).cursor);
    if far >= HEADER {
      if far >= Entry(LengthAt(u, h)) {
        SoloReadRun(u, h);
      } else {
        GiveUpRun(u, h);
      }
    }
  }

  /** A whole call of Read, with whatever happens while it waits, is a run: what the others
      do before each wake-up, then the call's own steps. */
  lemma {:induction false} ReadIsRun(s: State, h: nat, arrivals: seq<Arrival>, others: seq<seq<Action>>)
    returns (acts: seq<Action>, u: State, t: State, ok: bool)
    requires |s.ring| > 0 && s.Active(h) && s.Handle(h).pc.Resting? && ReadersWait(s, h, arrivals, others)
    ensures Exec(s, acts) == Some(t) && SharedOf(u) == WokenAt(s.Handle(h).cursor, SharedOf(s), arrivals)
    ensures u.Handle(h) == s.Handle(h) && u.max == s.max && |u.ring| > 0 && ReadDone(u, h, t, ok)
    ensures ReadTrace(h, others, ReadWakes(s.Handle(h).cursor, SharedOf(s), arrivals), ReadSteps(u, h), acts)
  {
    var wait;
    wait, u := ReadWaitRun(s, h, arrivals, others);
    var far := Sub64(u.writePos, u.Handle(h).cursor);
    ok := far >= HEADER && far >= Entry(LengthAt(u, h));
    t := if ok then AfterRead(u, h) else u;
    acts := wait + ReadSteps(u, h);
    ReadStepsRun(u, h);
    ExecConcat(s, wait, ReadSteps(u, h));
    ReadStepsOwn(u, h);
    ReadTraceWhole(h, others, ReadWakes(s.Handle(h).cursor, SharedOf(s), arrivals), wait, ReadSteps(u, h));
  }

  /** The bytes that a read puts into a buffer are those it logs as delivered. */
  lemma ReadDelivers(u: State, h: nat, before: seq<byte>, after: seq<byte>)
    requires |u.ring| > 0 && Copied(u, h) <= |before|
    requires after == Splice(before, 0, Fetch(u.ring, u.Handle(h).cursor + HEADER, Copied(u, h)))
    ensures AfterRead(u, h).Handle(h).delivered
         == u.Handle(h).delivered + [Delivery(LengthAt(u, h), after[..Copied(u, h)])]
  {
    var data := Fetch(u.ring, u.Handle(h).cursor + HEADER, Copied(u, h));
    SpliceRead(before, 0, data);
    assert after[0..|data|] == after[..|data|];
  }

  /** Read on a segment that shows s ends showing the state of that run, with the run's
      delivery in the buffer. */
  method ReadCall(segment: BucketSegment, out: array<byte>, max: nat, arrivals: seq<Arrival>,
                  ghost s: State, ghost h: nat, ghost others: seq<seq<Action>>)
    returns (ok: bool, len: nat, ghost acts: seq<Action>, ghost t: State)
    requires segment.Valid() && segment.magicOk && Shows(segment, s) && segment.cursor == s.Handle(h).cursor
    requires max == s.max && max <= out.Length && max <= segment.capacity && out != segment.ring
    requires s.Active(h) && s.Handle(h).pc.Resting? && ReadersWait(s, h, arrivals, others)
    requires forall k | 0 <= k < |arrivals| :: |arrivals[k].ring| == segment.capacity
    modifies segment`writePos, segment`readPos, segment`cursor, segment`drainWord, segment.ring, out
    ensures Exec(s, acts) == Some(t) && Shows(segment, t) && segment.cursor == t.Handle(h).cursor
    ensures ReadTrace(h, others, ReadWakes(s.Handle(h).cursor, SharedOf(s), arrivals), Of(acts, ByHandle(h)), acts)
    ensures var was, now := s.Handle(h).delivered, t.Handle(h).delivered;
            if !ok then now == was && out[..] == old(out[..])
            else
              var n := if len > max then max else len;
              n <= out.Length && now == was + [Delivery(len, out[..n])]
  {
    ok, len := segment.Read(out, max, arrivals);
    ghost var u, done;
    acts, u, t, done := ReadIsRun(s, h, arrivals, others);
    ReadAgrees(u, h, t, done, segment.Now(), segment.cursor, ok, len, old(out[..]), out[..]);
  }

  /** The handle and the run agree on what a read leaves. */
  lemma ReadAgrees(u: State, h: nat, t: State, done: bool, now: Arrival, cursor: nat, ok: bool, len: nat,
                   before: seq<byte>, after: seq<byte>)
    requires |u.ring| > 0 && ReadDone(u, h, t, done)
    requires now == if ok then SharedOf(u).(readPos := cursor) else SharedOf(u)
    requires var far := Sub64(u.writePos, u.Handle(h).cursor);
             ok <==> far >= HEADER && far >= Entry(LengthAt(u, h))
    requires if ok then TookEntry(u.ring, u.Handle(h).cursor, cursor, u.max, len, before, after)
             else cursor == u.Handle(h).cursor && after == before
    ensures now == SharedOf(t) && cursor == t.Handle(h).cursor
    ensures var was, seen := u.Handle(h).delivered, t.Handle(h).delivered;
            if !ok then seen == was && after == before
            else
              var n := if len > u.max then u.max else len;
              n <= |after| && seen == was + [Delivery(len, after[..n])]
  {
    if ok {
      ReadDelivers(u, h, before, after);
    }
  }

  // ---- a claim ----

  /** ClaimOwnership on a segment just opened is the protocol's claim. */
  method ClaimCall(segment: BucketSegment, me: nat, ownerGone: bool, ghost s: State, ghost h: nat)
    returns (held: bool, ghost t: State)
    requires segment.Valid() && segment.magicOk && Shows(segment, s) && segment.ownerPid == s.ownerPid
    requires segment.cursor == s.readPos && ownerGone == (s.ownerPid in s.gone) && Claims(s, h, me).Some?
    modifies segment`writePos, segment`readPos, segment`cursor, segment`ownerPid
    ensures Claims(s, h, me) == Some(t) && Shows(segment, t) && segment.ownerPid == t.ownerPid
    ensures held == Takes(s, me) && (held ==> segment.cursor == t.Handle(h).cursor)
  {
    held := segment.ClaimOwnership(me, ownerGone);
    t := Claims(s, h, me).value;
  }
}
