/** Runs of the protocol built step by step: one undisturbed write, one undisturbed read. */
module BucketRuns {
  import opened Bytes
  import opened Wrappers
  import opened Ring
  import opened BucketProtocol

  // ---- one write ----

  function Copies(w: nat, n: nat): (acts: seq<Action>)
    ensures |acts| == n
    ensures forall i | 0 <= i < n :: acts[i] == Copy(w)
  {
    seq(n, _ => Copy(w))
  }

  /** What Write does once its wait is over: the test passes, and the copy begins. */
  function FinishWrite(w: nat, m: Message): seq<Action> {
    [Check(w)] + (Copies(w, |Record(m)|) + [Publish(w), Release(w)])
  }

  /** One undisturbed call of Write by process w. */
  function SoloWrite(w: nat, m: Message): seq<Action> {
    [Call(w, m), Acquire(w)] + FinishWrite(w, m)
  }

  function SoloWrites(w: nat, ms: seq<Message>): seq<Action> {
    if ms == [] then [] else SoloWrite(w, ms[0]) + SoloWrites(w, ms[1..])
  }

  lemma {:induction false} ExecConcat(s: State, a: seq<Action>, b: seq<Action>)
    requires |s.ring| > 0
    ensures Exec(s, a + b) == match Exec(s, a) case None => None case Some(t) => Exec(t, b)
    decreases |a|
  {
    if a == [] {
      assert a + b == b;
    } else {
      assert (a + b)[1..] == a[1..] + b;
      if Next(s, a[0]).Some? {
        ExecConcat(Next(s, a[0]).value, a[1..], b);
      }
    }
  }

  lemma {:induction false} ExecStep(s: State, a: Action, rest: seq<Action>)
    requires |s.ring| > 0
    ensures Exec(s, [a] + rest) == match Next(s, a) case None => None case Some(t) => Exec(t, rest)
  {
    assert ([a] + rest)[1..] == rest;
  }

  function Halfway(s: State, w: nat, m: Message, done: nat): State
    requires |s.ring| > 0 && done <= |Record(m)|
  {
    s.Set(w, Copying(m, done)).(ring := Deposit(s.ring, s.writePos, Record(m)[..done]))
  }

  lemma {:induction false} CopyOnce(s: State, w: nat, m: Message, done: nat)
    requires |s.ring| > 0 && done < |Record(m)| <= |s.ring|
    ensures Next(Halfway(s, w, m, done), Copy(w)) == Some(Halfway(s, w, m, done + 1))
  {
    DepositStep(s.ring, s.writePos, Record(m), done);
    var next := Copying(m, done + 1);
    assert s.writers[w := Copying(m, done)][w := next] == s.writers[w := next];
  }

  lemma {:induction false} CopiesRun(s: State, w: nat, m: Message, done: nat)
    requires |s.ring| > 0 && done <= |Record(m)| <= |s.ring|
    ensures Exec(Halfway(s, w, m, done), Copies(w, |Record(m)| - done)) == Some(Halfway(s, w, m, |Record(m)|))
    decreases |Record(m)| - done
  {
    var acts := Copies(w, |Record(m)| - done);
    if done < |Record(m)| {
      CopyOnce(s, w, m, done);
      assert acts[1..] == Copies(w, |Record(m)| - done - 1);
      CopiesRun(s, w, m, done + 1);
    }
  }

  function Written(s: State, w: nat, m: Message): State
    requires |s.ring| > 0
  {
    s.Set(w, Idle).(lock := Free, ring := Deposit(s.ring, s.writePos, Record(m)),
                    writePos := s.writePos + Entry(|m|), published := s.published + [m])
  }

  function Entered(s: State, w: nat, m: Message): State {
    s.Set(w, Waiting(m, false)).(lock := Held(w))
  }

  lemma {:induction false} EnterRun(s: State, w: nat, m: Message)
    requires |s.ring| > 0 && Entry(|m|) <= |s.ring| && s.Pc(w).Idle? && !s.lock.Held?
    ensures Exec(s, [Call(w, m), Acquire(w)]) == Some(Entered(s, w, m))
  {
    assert [Call(w, m), Acquire(w)] == [Call(w, m)] + ([Acquire(w)] + []);
    ExecStep(s, Call(w, m), [Acquire(w)] + []);
    var s1 := s.Set(w, Wanting(m));
    ExecStep(s1, Acquire(w), []);
    assert s1.writers[w := Waiting(m, false)] == s.writers[w := Waiting(m, false)];
  }

  /** A waiting writer that passes the test deposits its record and publishes it. */
  lemma {:induction false} FinishRun(s: State, w: nat, m: Message)
    requires |s.ring| > 0 && Entry(|m|) <= |s.ring| && DrainGuard(|s.ring|, s.writePos, s.readPos)
    requires s.Pc(w).Waiting? && s.Pc(w).msg == m
    ensures Exec(s, FinishWrite(w, m)) == Some(Written(s, w, m))
  {
    var u := s.Set(w, Copying(m, 0));
    ExecStep(s, Check(w), Copies(w, |Record(m)|) + [Publish(w), Release(w)]);
    CopyThenPublish(u, w, m);
    assert s.writers[w := Copying(m, 0)][w := Idle] == s.writers[w := Idle];
  }

  lemma EnteredWritten(s: State, w: nat, m: Message)
    requires |s.ring| > 0
    ensures Written(Entered(s, w, m), w, m) == Written(s, w, m)
  {
    assert s.writers[w := Waiting(m, false)][w := Idle] == s.writers[w := Idle];
  }

  /** An undisturbed Write that passes the test. */
  lemma {:induction false} SoloWriteRun(s: State, w: nat, m: Message)
    requires |s.ring| > 0 && Entry(|m|) <= |s.ring| && DrainGuard(|s.ring|, s.writePos, s.readPos)
    requires s.Pc(w).Idle? && !s.lock.Held?
    ensures Exec(s, SoloWrite(w, m)) == Some(Written(s, w, m))
  {
    ExecConcat(s, [Call(w, m), Acquire(w)], FinishWrite(w, m));
    EnterRun(s, w, m);
    FinishRun(Entered(s, w, m), w, m);
    EnteredWritten(s, w, m);
  }

  lemma {:induction false} CopyThenPublish(s: State, w: nat, m: Message)
    requires |s.ring| > 0 && Entry(|m|) <= |s.ring| && s.Pc(w) == Copying(m, 0)
    ensures Exec(s, Copies(w, |Record(m)|) + [Publish(w), Release(w)]) == Some(Written(s, w, m))
  {
    var n := |Record(m)|;
    ExecConcat(s, Copies(w, n), [Publish(w), Release(w)]);
    NothingCopied(s, w, m);
    CopiesRun(s, w, m, 0);
    assert Exec(s, Copies(w, n)) == Some(Halfway(s, w, m, n));
    PublishRun(s, w, m);
  }

  lemma NothingCopied(s: State, w: nat, m: Message)
    requires |s.ring| > 0 && s.Pc(w) == Copying(m, 0)
    ensures Halfway(s, w, m, 0) == s
  {
    assert Record(m)[..0] == [];
    assert Deposit(s.ring, s.writePos, []) == s.ring;
    assert s.writers[w := Copying(m, 0)] == s.writers;
  }

  lemma {:induction false} PublishRun(s: State, w: nat, m: Message)
    requires |s.ring| > 0
    ensures Exec(Halfway(s, w, m, |Record(m)|), [Publish(w), Release(w)]) == Some(Written(s, w, m))
  {
    assert Record(m)[..|Record(m)|] == Record(m);
    var h := Halfway(s, w, m, |Record(m)|);
    var t := h.Set(w, Leaving).(writePos := s.writePos + Entry(|m|), published := s.published + [m]);
    assert [Publish(w), Release(w)] == [Publish(w)] + ([Release(w)] + []);
    ExecStep(h, Publish(w), [Release(w)] + []);
    ExecStep(t, Release(w), []);
    assert Next(h, Publish(w)) == Some(t);
    assert t.writers[w := Idle] == s.writers[w := Idle];
    assert Next(t, Release(w)) == Some(Written(s, w, m));
  }

  // ---- one read ----

  function Peeks(h: nat, n: nat): (acts: seq<Action>)
    ensures |acts| == n
    ensures forall i | 0 <= i < n :: acts[i] == Peek(h)
  {
    seq(n, _ => Peek(h))
  }

  /** One undisturbed call of Read by handle h that copies n payload bytes out. */
  function SoloRead(h: nat, n: nat): seq<Action> {
    [Look(h)] + FinishRead(h, HEADER + n)
  }

  /** The rest of a read that still has n bytes to copy. */
  function FinishRead(h: nat, n: nat): seq<Action> {
    Peeks(h, n) + [Consume(h)]
  }

  /** The length header at a handle's cursor. */
  function LengthAt(s: State, h: nat): nat
    requires |s.ring| > 0
  {
    Val(Fetch(s.ring, s.Handle(h).cursor, HEADER))
  }

  function Copied(s: State, h: nat): nat
    requires |s.ring| > 0
  {
    if LengthAt(s, h) > s.max then s.max else LengthAt(s, h)
  }

  /** Handle h in the middle of a read, with k bytes copied. */
  function Midway(s: State, h: nat, snap: nat, k: nat): State
    requires |s.ring| > 0
  {
    s.Put(h, s.Handle(h).(pc := Reading(snap, Fetch(s.ring, s.Handle(h).cursor, k))))
  }

  function AfterRead(s: State, h: nat): State
    requires |s.ring| > 0
  {
    var r := s.Handle(h);
    var c := r.cursor + Entry(LengthAt(s, h));
    var got := Delivery(LengthAt(s, h), Fetch(s.ring, r.cursor + HEADER, Copied(s, h)));
    s.Put(h, r.(cursor := c, pc := Resting, delivered := r.delivered + [got])).(readPos := c)
  }

  lemma FetchPrefix(ring: seq<byte>, at: nat, n: nat, k: nat)
    requires |ring| > 0 && k <= n
    ensures Fetch(ring, at, n)[..k] == Fetch(ring, at, k) && Fetch(ring, at, n)[k..] == Fetch(ring, at + k, n - k)
    ensures k < n ==> Fetch(ring, at, k) + [ring[(at + k) % |ring|]] == Fetch(ring, at, k + 1)
  {
  }

  lemma {:induction false} PeekOnce(s: State, h: nat, snap: nat, k: nat)
    requires |s.ring| > 0 && s.Active(h) && Sub64(snap, s.Handle(h).cursor) >= Entry(LengthAt(s, h))
    requires k < HEADER + Copied(s, h)
    ensures Next(Midway(s, h, snap, k), Peek(h)) == Some(Midway(s, h, snap, k + 1))
  {
    FetchPrefix(s.ring, s.Handle(h).cursor, HEADER + Copied(s, h), k);
    if k >= HEADER {
      FetchPrefix(s.ring, s.Handle(h).cursor, k, HEADER);
    }
    var m := Midway(s, h, snap, k);
    assert m.Handle(h) == s.Handle(h).(pc := Reading(snap, Fetch(s.ring, s.Handle(h).cursor, k)));
    var next := Midway(s, h, snap, k + 1).Handle(h);
    assert s.readers[h := m.Handle(h)][h := next] == s.readers[h := next];
  }

  lemma {:induction false} ConsumeOnce(s: State, h: nat, snap: nat)
    requires |s.ring| > 0 && s.Active(h) && Sub64(snap, s.Handle(h).cursor) >= Entry(LengthAt(s, h))
    ensures Next(Midway(s, h, snap, HEADER + Copied(s, h)), Consume(h)) == Some(AfterRead(s, h))
  {
    var k := HEADER + Copied(s, h);
    FetchPrefix(s.ring, s.Handle(h).cursor, k, HEADER);
    var m := Midway(s, h, snap, k);
    assert m.Handle(h) == s.Handle(h).(pc := Reading(snap, Fetch(s.ring, s.Handle(h).cursor, k)));
    var next := AfterRead(s, h).Handle(h);
    assert s.readers[h := m.Handle(h)][h := next] == s.readers[h := next];
  }

  /** A read that has begun completes when the entry ends by its snapshot. */
  lemma {:induction false} FinishReadRun(s: State, h: nat, snap: nat, k: nat)
    requires |s.ring| > 0 && s.Active(h) && Sub64(snap, s.Handle(h).cursor) >= Entry(LengthAt(s, h))
    requires k <= HEADER + Copied(s, h)
    ensures Exec(Midway(s, h, snap, k), FinishRead(h, HEADER + Copied(s, h) - k)) == Some(AfterRead(s, h))
    decreases HEADER + Copied(s, h) - k
  {
    var n := HEADER + Copied(s, h) - k;
    FinishReadSplit(h, n);
    if n == 0 {
      ConsumeOnce(s, h, snap);
      ExecStep(Midway(s, h, snap, k), Consume(h), []);
    } else {
      PeekOnce(s, h, snap, k);
      ExecStep(Midway(s, h, snap, k), Peek(h), FinishRead(h, n - 1));
      FinishReadRun(s, h, snap, k + 1);
    }
  }

  lemma FinishReadSplit(h: nat, n: nat)
    ensures FinishRead(h, n) == if n == 0 then [Consume(h)] + [] else [Peek(h)] + FinishRead(h, n - 1)
  {
    if n > 0 {
      assert Peeks(h, n) == [Peek(h)] + Peeks(h, n - 1);
    }
  }

  /** An undisturbed Read takes the entry at its cursor, whatever is there, if that entry
      ends by the write position. */
  lemma {:induction false} SoloReadRun(s: State, h: nat)
    requires |s.ring| > 0 && s.Active(h) && s.Handle(h).pc.Resting?
    requires Sub64(s.writePos, s.Handle(h).cursor) >= Entry(LengthAt(s, h))
    ensures Exec(s, SoloRead(h, Copied(s, h))) == Some(AfterRead(s, h))
  {
    ExecStep(s, Look(h), FinishRead(h, HEADER + Copied(s, h)));
    assert Fetch(s.ring, s.Handle(h).cursor, 0) == [];
    assert Next(s, Look(h)) == Some(Midway(s, h, s.writePos, 0));
    FinishReadRun(s, h, s.writePos, 0);
  }

  // ---- runs that keep all the rules ----

  /** acts leads from s to t; every copy in it has room and every claim is orderly. */
  ghost predicate Fair(s: State, acts: seq<Action>, t: State) {
    |s.ring| > 0 && Exec(s, acts) == Some(t) && Orderly(s, acts) && Roomy(s, acts)
  }

  lemma {:induction false} FairConcat(s: State, a: seq<Action>, t: State, b: seq<Action>, u: State)
    requires Fair(s, a, t) && Fair(t, b, u)
    ensures Fair(s, a + b, u)
    decreases |a|
  {
    if a == [] {
      assert a + b == b;
    } else {
      assert (a + b)[0] == a[0] && (a + b)[1..] == a[1..] + b;
      FairConcat(Next(s, a[0]).value, a[1..], t, b, u);
    }
  }

  /** Steps that neither test for room nor claim keep every rule. */
  lemma {:induction false} FairPlain(s: State, acts: seq<Action>, t: State)
    requires |s.ring| > 0 && Exec(s, acts) == Some(t)
    requires forall a | a in acts :: !a.Check? && !a.Claim?
    ensures Fair(s, acts, t)
    decreases |acts|
  {
    if acts != [] {
      assert acts[0] in acts;
      FairPlain(Next(s, acts[0]).value, acts[1..], t);
    }
  }

  lemma {:induction false} FairEnter(s: State, w: nat, m: Message)
    requires |s.ring| > 0 && Entry(|m|) <= |s.ring| && s.Pc(w).Idle? && !s.lock.Held?
    ensures Fair(s, [Call(w, m), Acquire(w)], Entered(s, w, m))
  {
    EnterRun(s, w, m);
    FairPlain(s, [Call(w, m), Acquire(w)], Entered(s, w, m));
  }

  /** A waiting writer that passes the test with room. */
  lemma {:induction false} FairFinish(s: State, w: nat, m: Message)
    requires |s.ring| > 0 && Entry(|m|) <= |s.ring| && s.Pc(w).Waiting? && s.Pc(w).msg == m
    requires DrainGuard(|s.ring|, s.writePos, s.readPos) && Room(|s.ring|, s.writePos, s.readPos, |m|)
    ensures Fair(s, FinishWrite(w, m), Written(s, w, m))
  {
    var rest := Copies(w, |Record(m)|) + [Publish(w), Release(w)];
    FinishRun(s, w, m);
    var c := s.Set(w, Copying(m, 0));
    assert Next(s, Check(w)) == Some(c);
    assert ([Check(w)] + rest)[1..] == rest;
    FairPlain(c, rest, Written(s, w, m));
  }

  lemma {:induction false} FairWrite(s: State, w: nat, m: Message)
    requires |s.ring| > 0 && Entry(|m|) <= |s.ring| && s.Pc(w).Idle? && !s.lock.Held?
    requires DrainGuard(|s.ring|, s.writePos, s.readPos) && Room(|s.ring|, s.writePos, s.readPos, |m|)
    ensures Fair(s, SoloWrite(w, m), Written(s, w, m))
  {
    FairEnter(s, w, m);
    FairFinish(Entered(s, w, m), w, m);
    EnteredWritten(s, w, m);
    FairConcat(s, [Call(w, m), Acquire(w)], Entered(s, w, m), FinishWrite(w, m), Written(s, w, m));
  }

  lemma {:induction false} FairRead(s: State, h: nat)
    requires |s.ring| > 0 && s.Active(h) && s.Handle(h).pc.Resting?
    requires Sub64(s.writePos, s.Handle(h).cursor) >= Entry(LengthAt(s, h))
    ensures Fair(s, SoloRead(h, Copied(s, h)), AfterRead(s, h))
  {
    SoloReadRun(s, h);
    FairPlain(s, SoloRead(h, Copied(s, h)), AfterRead(s, h));
  }
}
