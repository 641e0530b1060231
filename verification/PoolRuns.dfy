/** The pool over whole runs: frames acquire blocks, and every tick evicts once, as
    DataFactory drives it. */
module PoolRuns {
  import opened Bytes
  import opened Wrappers
  import opened Pool

  datatype Event = Frame(key: nat) | Tick

  /** table holds true, unbounded tick counts; log holds every acquisition. */
  datatype Run = Run(table: Table, now: nat, log: set<(nat, nat)>)

  function Start(cap: nat): Run {
    Run(seq(cap, _ => Free), 0, {})
  }

  /** Eviction by true age. */
  function Expired(t: Table, now: nat, ttl: nat): (u: Table)
    ensures |u| == |t|
    ensures forall i | 0 <= i < |t| ::
              u[i] == if t[i].Used? && now > t[i].tick + ttl then Free else t[i]
  {
    seq(|t|, i requires 0 <= i < |t| => if t[i].Used? && now > t[i].tick + ttl then Free else t[i])
  }

  function Step(r: Run, e: Event, ttl: nat): Run {
    match e
    case Frame(key) =>
      Run(Acquired(r.table, key, r.now), r.now,
          if Probe(r.table, key).Some? then r.log + {(key, r.now)} else r.log)
    case Tick => Run(Expired(r.table, r.now + 1, ttl), r.now + 1, r.log)
  }

  function Exec(r: Run, es: seq<Event>, ttl: nat): Run
    decreases |es|
  {
    if es == [] then r else Exec(Step(r, es[0], ttl), es[1..], ttl)
  }

  // ---- the invariant ----

  /** Of two copies of one key, the one probed first is strictly fresher. */
  ghost predicate Shadowed(t: Table) {
    forall i, j | 0 <= i < |t| && 0 <= j < |t| && t[i].Used? && t[j].Used? && t[i].key == t[j].key
                  && Dist(t[i].key, i, |t|) < Dist(t[j].key, j, |t|) ::
      t[i].tick > t[j].tick
  }

  /** A copy refreshed in the current tick is where probing ends. */
  ghost predicate FreshFound(t: Table, now: nat) {
    forall i | 0 <= i < |t| && t[i].Used? && t[i].tick == now :: FirstStop(t, t[i].key, i)
  }

  ghost predicate Ages(t: Table, now: nat, ttl: nat) {
    forall i | 0 <= i < |t| && t[i].Used? :: t[i].tick <= now <= t[i].tick + ttl
  }

  ghost predicate Logged(r: Run) {
    forall i | 0 <= i < |r.table| && r.table[i].Used? :: (r.table[i].key, r.table[i].tick) in r.log
  }

  ghost predicate Good(r: Run, ttl: nat) {
    Shadowed(r.table) && FreshFound(r.table, r.now) && Ages(r.table, r.now, ttl) && Logged(r)
  }

  lemma NotFresh(t: Table, key: nat, now: nat, i: nat, j: nat)
    requires FreshFound(t, now) && FirstStop(t, key, i)
    requires j < |t| && t[j].Used? && t[j].key == key && Dist(key, i, |t|) < Dist(key, j, |t|)
    ensures t[j].tick != now
  {
  }

  lemma {:induction false} FrameShadowed(t: Table, key: nat, now: nat, ttl: nat)
    requires Shadowed(t) && FreshFound(t, now) && Ages(t, now, ttl)
    ensures Shadowed(Acquired(t, key, now))
  {
    ProbeIff(t, key);
    var u := Acquired(t, key, now);
    forall i, j | 0 <= i < |u| && 0 <= j < |u| && u[i].Used? && u[j].Used? && u[i].key == u[j].key
                  && Dist(u[i].key, i, |u|) < Dist(u[j].key, j, |u|)
      ensures u[i].tick > u[j].tick
    {
      if Probe(t, key) == Some(i) {
        NotFresh(t, key, now, i, j);
      }
    }
  }

  lemma {:induction false} FrameFreshFound(t: Table, key: nat, now: nat)
    requires FreshFound(t, now)
    ensures FreshFound(Acquired(t, key, now), now)
  {
    ProbeIff(t, key);
    var u := Acquired(t, key, now);
    forall i | 0 <= i < |u| && u[i].Used? && u[i].tick == now
      ensures FirstStop(u, u[i].key, i)
    {
      if Probe(t, key) != Some(i) && Probe(t, key).Some? {
        var idx := Probe(t, key).value;
        assert FirstStop(t, t[i].key, i);
        if Dist(u[i].key, idx, |u|) < Dist(u[i].key, i, |u|) {
          assert !Stops(t[idx], t[i].key);
        }
      }
    }
  }

  lemma {:induction false} StepGood(r: Run, e: Event, ttl: nat)
    requires Good(r, ttl)
    ensures Good(Step(r, e, ttl), ttl)
  {
    match e
    case Frame(key) =>
      FrameShadowed(r.table, key, r.now, ttl);
      FrameFreshFound(r.table, key, r.now);
    case Tick =>
  }

  lemma {:induction false} RunGood(r: Run, es: seq<Event>, ttl: nat)
    requires Good(r, ttl)
    ensures Good(Exec(r, es, ttl), ttl)
    decreases |es|
  {
    if es != [] {
      StepGood(r, es[0], ttl);
      RunGood(Step(r, es[0], ttl), es[1..], ttl);
    }
  }

  // ---- shadowing ----

  /** On every run, the block FindBlock returns is the freshest copy of its key, and
      every other copy is staler. */
  lemma {:induction false} FindIsFreshest(cap: nat, es: seq<Event>, ttl: nat, key: nat)
    ensures var t := Exec(Start(cap), es, ttl).table;
            Find(t, key).Some? ==>
              forall j | 0 <= j < |t| && t[j].Used? && t[j].key == key && j != Find(t, key).value ::
                t[j].tick < t[Find(t, key).value].tick
  {
    RunGood(Start(cap), es, ttl);
    var t := Exec(Start(cap), es, ttl).table;
    ProbeIff(t, key);
    if Find(t, key).Some? {
      var i := Find(t, key).value;
      forall j | 0 <= j < |t| && t[j].Used? && t[j].key == key && j != i
        ensures t[j].tick < t[i].tick
      {
        ProbedDist(key, i, |t|);
        ProbedDist(key, j, |t|);
      }
    }
  }

  /** On every run, the copies of a key that survive an eviction are a prefix of its
      copies along the probe order. */
  lemma {:induction false} EvictionKeepsPrefix(cap: nat, es: seq<Event>, ttl: nat, i: nat, j: nat)
    requires i < cap && j < cap
    ensures var r := Exec(Start(cap), es, ttl);
            var t, u := r.table, Step(r, Tick, ttl).table;
            && |t| == |u| == cap
            && (t[i].Used? && t[j].Used? && t[i].key == t[j].key && u[j].Used?
                ==> Dist(t[i].key, i, cap) < Dist(t[j].key, j, cap) ==> u[i] == t[i])
  {
    RunGood(Start(cap), es, ttl);
    ExecSize(Start(cap), es, ttl);
  }

  lemma {:induction false} ExecSize(r: Run, es: seq<Event>, ttl: nat)
    ensures |Exec(r, es, ttl).table| == |r.table|
    decreases |es|
  {
    if es != [] {
      ExecSize(Step(r, es[0], ttl), es[1..], ttl);
    }
  }

  // ---- acquire, then find ----

  lemma {:induction false} FoundStays(t: Table, key: nat, idx: nat, other: nat, now: nat)
    requires FirstStop(t, key, idx) && t[idx].Used?
    ensures FirstStop(Acquired(t, other, now), key, idx) && Acquired(t, other, now)[idx].Used?
  {
    ProbeIff(t, other);
  }

  lemma {:induction false} FramesKeepFound(r: Run, key: nat, idx: nat, es: seq<Event>, ttl: nat)
    requires FirstStop(r.table, key, idx) && r.table[idx].Used? && forall e | e in es :: e.Frame?
    ensures Find(Exec(r, es, ttl).table, key) == Some(idx)
    decreases |es|
  {
    ProbeIff(r.table, key);
    if es != [] {
      assert es[0] in es;
      FoundStays(r.table, key, idx, es[0].key, r.now);
      FramesKeepFound(Step(r, es[0], ttl), key, idx, es[1..], ttl);
    }
  }

  /** Once acquired, a key is found in that same block through any further
      acquisitions of any keys, until the next eviction. */
  lemma {:induction false} AcquireThenFind(r: Run, key: nat, es: seq<Event>, ttl: nat)
    requires Probe(r.table, key).Some? && forall e | e in es :: e.Frame?
    ensures Find(Exec(r, [Frame(key)] + es, ttl).table, key) == Probe(r.table, key)
  {
    ProbeIff(r.table, key);
    var idx := Probe(r.table, key).value;
    var s := Step(r, Frame(key), ttl);
    assert FirstStop(s.table, key, idx);
    FramesKeepFound(s, key, idx, es, ttl);
    assert ([Frame(key)] + es)[1..] == es;
  }

  // ---- the tick counter wraps ----

  function Wrap(t: Table): (u: Table)
    ensures |u| == |t|
    ensures forall i | 0 <= i < |t| :: u[i] == if t[i].Used? then Used(t[i].key, t[i].tick % U32) else Free
  {
    seq(|t|, i requires 0 <= i < |t| => if t[i].Used? then Used(t[i].key, t[i].tick % U32) else Free)
  }

  /** The region as the code keeps it: 32-bit ticks, 32-bit unsigned ages. */
  function CodeStep(t: Table, tick: nat, e: Event, ttl: nat): (Table, nat) {
    match e
    case Frame(key) => (Acquired(t, key, tick), tick)
    case Tick => (Evicted(t, (tick + 1) % U32, ttl), (tick + 1) % U32)
  }

  function CodeExec(t: Table, tick: nat, es: seq<Event>, ttl: nat): (Table, nat)
    decreases |es|
  {
    if es == [] then (t, tick)
    else var (u, next) := CodeStep(t, tick, es[0], ttl); CodeExec(u, next, es[1..], ttl)
  }

  lemma {:induction false} WrapAge(now: nat, tick: nat)
    requires tick <= now < tick + U32
    ensures Age32(now % U32, tick % U32) == now - tick
  {
    var q, k := now / U32, tick / U32;
    assert now == U32 * q + now % U32 && tick == U32 * k + tick % U32;
  }

  lemma {:induction false} WrapProbe(t: Table, key: nat, i: nat)
    requires i <= |t|
    ensures ProbeFrom(Wrap(t), key, i) == ProbeFrom(t, key, i)
    decreases |t| - i
  {
    if i < |t| {
      WrapProbe(t, key, i + 1);
    }
  }

  lemma {:induction false} WrapStep(r: Run, e: Event, ttl: nat)
    requires Good(r, ttl) && ttl + 1 < U32
    ensures CodeStep(Wrap(r.table), r.now % U32, e, ttl)
         == (Wrap(Step(r, e, ttl).table), Step(r, e, ttl).now % U32)
  {
    match e
    case Frame(key) =>
      WrapProbe(r.table, key, 0);
      assert Acquired(Wrap(r.table), key, r.now % U32) == Wrap(Acquired(r.table, key, r.now));
    case Tick =>
      var t, now := r.table, r.now + 1;
      assert (r.now % U32 + 1) % U32 == now % U32;
      forall i | 0 <= i < |t|
        ensures Evicted(Wrap(t), now % U32, ttl)[i] == Wrap(Expired(t, now, ttl))[i]
      {
        if t[i].Used? {
          WrapAge(now, t[i].tick);
        }
      }
      assert Evicted(Wrap(t), now % U32, ttl) == Wrap(Expired(t, now, ttl));
  }

  /** However long the run, the wrapping code evicts exactly by true age. */
  lemma {:induction false} CodeMatchesTrueAges(r: Run, es: seq<Event>, ttl: nat)
    requires Good(r, ttl) && ttl + 1 < U32
    ensures CodeExec(Wrap(r.table), r.now % U32, es, ttl)
         == (Wrap(Exec(r, es, ttl).table), Exec(r, es, ttl).now % U32)
    decreases |es|
  {
    if es != [] {
      WrapStep(r, es[0], ttl);
      StepGood(r, es[0], ttl);
      CodeMatchesTrueAges(Step(r, es[0], ttl), es[1..], ttl);
    }
  }

  function Ticks(es: seq<Event>): nat {
    if es == [] then 0 else (if es[0].Tick? then 1 else 0) + Ticks(es[1..])
  }

  /** No frame of the run gets slot i. */
  ghost predicate Untouched(r: Run, es: seq<Event>, ttl: nat, i: nat)
    decreases |es|
  {
    es != [] ==>
      && (es[0].Frame? ==> Probe(r.table, es[0].key) != Some(i))
      && Untouched(Step(r, es[0], ttl), es[1..], ttl, i)
  }

  /** A slot that no frame touches any more keeps its key through ttl ticks after its
      acquisition, and is free from the next tick on. */
  lemma {:induction false} FreedExactlyAfterTtl(r: Run, es: seq<Event>, ttl: nat, i: nat, key: nat, tick: nat)
    requires Good(r, ttl) && i < |r.table| && Untouched(r, es, ttl, i) && tick <= r.now
    requires r.table[i] == if r.now <= tick + ttl then Used(key, tick) else Free
    ensures var s := Exec(r, es, ttl);
            && |s.table| == |r.table| && s.now == r.now + Ticks(es)
            && s.table[i] == if s.now <= tick + ttl then Used(key, tick) else Free
    decreases |es|
  {
    if es != [] {
      StepGood(r, es[0], ttl);
      FreedExactlyAfterTtl(Step(r, es[0], ttl), es[1..], ttl, i, key, tick);
    }
  }

  // ---- a block in use ----

  /** Slot i holds this key, acquired or refreshed in tick n or later. */
  ghost predicate HeldSince(r: Run, key: nat, i: nat, n: nat) {
    i < |r.table| && r.table[i].Used? && r.table[i].key == key && n <= r.table[i].tick
  }

  lemma {:induction false} FrameKeepsHeld(r: Run, other: nat, ttl: nat, key: nat, i: nat, n: nat)
    requires HeldSince(r, key, i, n) && n <= r.now
    ensures HeldSince(Step(r, Frame(other), ttl), key, i, n)
  {
    AcquiredExactly(r.table, other, r.now);
  }

  /** A frame that gets a block in tick n: the slot where its probe stops holds (key, n)
      from then on, or something fresher of the same key, through tick n + ttl, whatever
      else happens. */
  lemma {:induction false} FrameHolds(r: Run, key: nat, i: nat, es: seq<Event>, ttl: nat)
    requires FirstStop(r.table, key, i) && Ticks(es) <= ttl
    ensures var s := Step(r, Frame(key), ttl);
            && s.table == r.table[i := Used(key, r.now)] && s.now == r.now
            && HeldSince(Exec(s, es, ttl), key, i, r.now)
  {
    AcquiredExactly(r.table, key, r.now);
    HeldStays(Step(r, Frame(key), ttl), es, ttl, key, i, r.now);
  }

  lemma {:induction false} HeldStays(r: Run, es: seq<Event>, ttl: nat, key: nat, i: nat, n: nat)
    requires HeldSince(r, key, i, n) && n <= r.now && r.now + Ticks(es) <= n + ttl
    ensures HeldSince(Exec(r, es, ttl), key, i, n)
    decreases |es|
  {
    if es != [] {
      if es[0].Frame? {
        FrameKeepsHeld(r, es[0].key, ttl, key, i, n);
      }
      HeldStays(Step(r, es[0], ttl), es[1..], ttl, key, i, n);
    }
  }

  /** Ticks since the last frame of this key, if it was quiet for q ticks before. */
  function Quiet(es: seq<Event>, key: nat, q: nat): nat
    decreases |es|
  {
    if es == [] then q
    else Quiet(es[1..], key, if es[0] == Frame(key) then 0 else if es[0].Tick? then q + 1 else q)
  }

  /** The frames of this key are at most ttl ticks apart, up to the end. */
  predicate Fed(es: seq<Event>, key: nat, q: nat, ttl: nat)
    decreases |es|
  {
    && q <= ttl
    && (es != [] ==> Fed(es[1..], key, if es[0] == Frame(key) then 0 else if es[0].Tick? then q + 1 else q, ttl))
  }

  /** An object whose frames are at most ttl ticks apart is never without a block: at every
      time some slot holds its key with the tick of its last frame. */
  lemma {:induction false} FedKeepsBlock(r: Run, key: nat, i: nat, es: seq<Event>, q: nat, ttl: nat)
    requires q <= r.now && i < |r.table| && r.table[i] == Used(key, r.now - q) && Fed(es, key, q, ttl)
    ensures var s := Exec(r, es, ttl);
            && Quiet(es, key, q) <= s.now
            && exists j: nat :: j < |s.table| && s.table[j] == Used(key, s.now - Quiet(es, key, q))
    decreases |es|
  {
    if es == [] {
      assert r.table[i] == Used(key, r.now - Quiet(es, key, q));
    } else {
      var s := Step(r, es[0], ttl);
      var next := if es[0] == Frame(key) then 0 else if es[0].Tick? then q + 1 else q;
      var j := FedStep(r, key, i, es[0], q, ttl);
      FedKeepsBlock(s, key, j, es[1..], next, ttl);
    }
  }

  lemma {:induction false} FedStep(r: Run, key: nat, i: nat, e: Event, q: nat, ttl: nat) returns (j: nat)
    requires q <= r.now && i < |r.table| && r.table[i] == Used(key, r.now - q)
    requires e.Tick? ==> q + 1 <= ttl
    ensures var s := Step(r, e, ttl);
            var next := if e == Frame(key) then 0 else if e.Tick? then q + 1 else q;
            next <= s.now && j < |s.table| && s.table[j] == Used(key, s.now - next)
  {
    j := i;
    if e.Frame? {
      AcquiredExactly(r.table, e.key, r.now);
      if e.key == key {
        assert Stops(r.table[i], key);
        j := Probe(r.table, key).value;
      }
    }
  }

  // ---- a full pool ----

  /** The acquisitions of the last ttl ticks. */
  function Recent(r: Run, ttl: nat): set<(nat, nat)> {
    set a | a in r.log && a.1 + ttl >= r.now
  }

  ghost predicate AllUsedDistinct(t: Table) {
    && (forall i | 0 <= i < |t| :: t[i].Used?)
    && (forall i, j | 0 <= i < j < |t| :: (t[i].key, t[i].tick) != (t[j].key, t[j].tick))
  }

  function Pairs(t: Table, k: nat): set<(nat, nat)>
    requires k <= |t| && forall i | 0 <= i < |t| :: t[i].Used?
  {
    set i | 0 <= i < k :: (t[i].key, t[i].tick)
  }

  lemma {:induction false} CountPairs(t: Table, k: nat)
    requires AllUsedDistinct(t) && k <= |t|
    ensures |Pairs(t, k)| == k
    decreases k
  {
    if k > 0 {
      CountPairs(t, k - 1);
      var last := (t[k - 1].key, t[k - 1].tick);
      assert Pairs(t, k) == Pairs(t, k - 1) + {last};
      assert last !in Pairs(t, k - 1);
    }
  }

  lemma SubsetSize<T>(a: set<T>, b: set<T>)
    requires a <= b
    ensures |a| <= |b|
    decreases |a|
  {
    if a != {} {
      var x :| x in a;
      SubsetSize(a - {x}, b - {x});
    }
  }

  /** When acquiring fails, the pool is really full: on every run each slot then holds a
      different acquisition from the last ttl ticks, none of them of this key, so at
      least as many acquisitions as slots happened in that window. */
  lemma {:induction false} FullPoolIsFull(cap: nat, es: seq<Event>, ttl: nat, key: nat)
    requires Probe(Exec(Start(cap), es, ttl).table, key) == None
    ensures var r := Exec(Start(cap), es, ttl);
            && |r.table| == cap && AllUsedDistinct(r.table)
            && (forall i | 0 <= i < cap ::
                  r.table[i].key != key && (r.table[i].key, r.table[i].tick) in Recent(r, ttl))
            && |Recent(r, ttl)| >= cap
  {
    var r := Exec(Start(cap), es, ttl);
    RunGood(Start(cap), es, ttl);
    ExecSize(Start(cap), es, ttl);
    ProbeIff(r.table, key);
    forall i, j | 0 <= i < j < cap
      ensures (r.table[i].key, r.table[i].tick) != (r.table[j].key, r.table[j].tick)
    {
      ProbedDist(r.table[i].key, i, cap);
      ProbedDist(r.table[i].key, j, cap);
    }
    CountPairs(r.table, cap);
    SubsetSize(Pairs(r.table, cap), Recent(r, ttl));
  }

  // ---- where "one block per key" and "find after evict" fail ----

  ghost predicate Copy(t: Table, key: nat, i: nat) {
    i < |t| && t[i].Used? && t[i].key == key
  }

  /** FindBlock misses a key that is in the pool exactly when a free slot comes before
      every one of its copies in the probe order. */
  lemma {:induction false} FindMissesIff(t: Table, key: nat, i: nat)
    requires Copy(t, key, i)
    ensures Find(t, key) == None
       <==> exists f: nat :: f < |t| && t[f].Free?
              && forall j: nat | Copy(t, key, j) :: Dist(key, f, |t|) < Dist(key, j, |t|)
  {
    ProbeIff(t, key);
    var stop := Probe(t, key).value;
    forall j: nat | j < |t| && Dist(key, j, |t|) == Dist(key, stop, |t|)
      ensures j == stop
    {
      ProbedDist(key, j, |t|);
      ProbedDist(key, stop, |t|);
    }
    if t[stop].Free? {
      forall j: nat | Copy(t, key, j)
        ensures Dist(key, stop, |t|) < Dist(key, j, |t|)
      {
        assert Stops(t[j], key);
      }
    } else {
      assert Copy(t, key, stop);
      forall f: nat | f < |t| && t[f].Free?
        ensures Dist(key, f, |t|) >= Dist(key, stop, |t|)
      {
        assert Stops(t[f], key);
      }
    }
  }

  /** Acquiring a key gives it a new block beside an old one exactly when it was in the
      pool and FindBlock missed it. */
  lemma {:induction false} SecondCopyIff(t: Table, key: nat, now: nat, idx: nat)
    requires Probe(t, key) == Some(idx)
    ensures (t[idx].Free? && exists j: nat :: j != idx && Copy(Acquired(t, key, now), key, j))
       <==> (Find(t, key) == None && exists j: nat :: Copy(t, key, j))
  {
    ProbeIff(t, key);
    var u := Acquired(t, key, now);
    if j: nat :| j != idx && Copy(u, key, j) {
      assert Copy(t, key, j);
    }
    if j: nat :| Copy(t, key, j) && t[idx].Free? {
      assert Copy(u, key, j);
    }
  }

  function OnlyTicks(n: nat): (es: seq<Event>)
    ensures |es| == n && forall i | 0 <= i < n :: es[i] == Tick
  {
    seq(n, _ => Tick)
  }

  lemma {:induction false} TicksTouchNothing(r: Run, n: nat, ttl: nat, i: nat)
    ensures Untouched(r, OnlyTicks(n), ttl, i) && Ticks(OnlyTicks(n)) == n
    decreases n
  {
    if n > 0 {
      assert OnlyTicks(n)[1..] == OnlyTicks(n - 1);
      TicksTouchNothing(Step(r, Tick, ttl), n - 1, ttl, i);
    }
  }

  /** Both happen: keys 0 and cap share their first slot, key 0 expires, key cap does
      not, and from then on FindBlock misses key cap although its block is live. */
  lemma {:induction false} EvictionHidesLiveKey(cap: nat, ttl: nat)
    requires cap >= 2 && ttl >= 1
    ensures var t := Exec(Start(cap), [Frame(0), Tick, Frame(cap)] + OnlyTicks(ttl), ttl).table;
            Copy(t, cap, 1) && Find(t, cap) == None
  {
    var s3 := TwoKeys(cap, ttl);
    var es := OnlyTicks(ttl);
    ThreeSteps(Start(cap), Frame(0), Tick, Frame(cap), es, ttl);
    TicksTouchNothing(s3, ttl, ttl, 0);
    TicksTouchNothing(s3, ttl, ttl, 1);
    FreedExactlyAfterTtl(s3, es, ttl, 0, 0, 0);
    FreedExactlyAfterTtl(s3, es, ttl, 1, cap, 1);
    SameSlot(cap);
    FreeFirst(Exec(s3, es, ttl).table, cap);
  }

  /** A key whose first slot is free is not found. */
  lemma FreeFirst(t: Table, key: nat)
    requires |t| > 0 && t[0].Free? && Dist(key, 0, |t|) == 0
    ensures Find(t, key) == None
  {
    assert FirstStop(t, key, 0);
    ProbeIff(t, key);
  }

  /** Key 0 gets slot 0 in tick 0, key cap slot 1 in tick 1. */
  lemma {:induction false} TwoKeys(cap: nat, ttl: nat) returns (s3: Run)
    requires cap >= 2 && ttl >= 1
    ensures s3 == Step(Step(Step(Start(cap), Frame(0), ttl), Tick, ttl), Frame(cap), ttl) && Good(s3, ttl)
    ensures |s3.table| == cap && s3.now == 1 && s3.table[0] == Used(0, 0) && s3.table[1] == Used(cap, 1)
  {
    var s0 := Start(cap);
    var s1 := Step(s0, Frame(0), ttl);
    var s2 := Step(s1, Tick, ttl);
    s3 := Step(s2, Frame(cap), ttl);
    SameSlot(cap);
    assert FirstStop(s0.table, 0, 0);
    ProbeIff(s0.table, 0);
    assert s2.table[0] == Used(0, 0) && s2.table[1] == Free;
    assert FirstStop(s2.table, cap, 1);
    ProbeIff(s2.table, cap);
    StepGood(s0, Frame(0), ttl);
    StepGood(s1, Tick, ttl);
    StepGood(s2, Frame(cap), ttl);
  }

  lemma SameSlot(cap: nat)
    requires cap >= 2
    ensures Dist(cap, 0, cap) == 0 && Dist(cap, 1, cap) == 1
    ensures forall j | 0 <= j < cap :: Dist(0, j, cap) == Dist(cap, j, cap) == j
  {
  }

  lemma {:induction false} ThreeSteps(r: Run, a: Event, b: Event, c: Event, es: seq<Event>, ttl: nat)
    ensures Exec(r, [a, b, c] + es, ttl) == Exec(Step(Step(Step(r, a, ttl), b, ttl), c, ttl), es, ttl)
  {
    ExecCons(r, a, [b, c] + es, ttl);
    ExecCons(Step(r, a, ttl), b, [c] + es, ttl);
    ExecCons(Step(Step(r, a, ttl), b, ttl), c, es, ttl);
    assert [a, b, c] + es == [a] + ([b, c] + es) && [b, c] + es == [b] + ([c] + es);
  }

  lemma {:induction false} ExecCons(r: Run, e: Event, es: seq<Event>, ttl: nat)
    ensures Exec(r, [e] + es, ttl) == Exec(Step(r, e, ttl), es, ttl)
  {
    assert ([e] + es)[1..] == es;
  }
}
